# id3lib-ruby tag core in Dafny

This project models the frame-sequence logic of id3lib-ruby's `lib/id3lib.rb` and proves what it promises.

`ID3Lib::Tag` is an array of frames read from an MP3 file's ID3 tags, edited in place, and written back through a native store. A frame is a hash with an `:id` key plus field-id → value entries.

**How the model represents it**

- **Frames** (`frames.dfy`, module `Frames`): a frame is an identifier plus an ordered sequence of (field, value) entries. Hash lookup `h[k]` and hash store `h[k] = v` are modelled with Ruby's insertion-order semantics, because that order decides both the order of `invalid_frames` and the iteration order of `Frame.write`.
- **Registry** (`info.dfy`, module `Info`): `ID3Lib::Info` is kept abstract. It is a map from frame identifier to entry (numeric code, identifier, declared fields) and a map from numeric code to entry.
- **Native store** (`native.dfy`, module `Native`): `API::Tag` and `API::Frame` are classes that only log the calls made to them.
  - A native frame record (`NativeFrame`) has a fixed set of typed fields (its shape) and collects the setter calls made on it.
  - A tag handle (`NativeTag`) logs `link`, `strip`, `clear`, `add_frame`, `set_padding` and `update`.
  - What the store reads from the file, and what `strip`/`update` report, are constructor parameters.
- **Frame.read and Frame.write** (`translation.dfy`, modules `Translation` and `TranslationProps`):
  - Each is a method with the source's loop. Each is proved against a specification function: `Decoded` for reading, `Encode` for writing.
  - Separate lemmas state the promised properties of those functions: which fields are written, in which order, with which setter, and when the write raises.
- **Tag** (`id3lib.dfy`, module `ID3Lib`):
  - `frame`, `frame_text` and `invalid_frames` are pure functions over the frame sequence.
  - `Tag` is a class whose methods change the frame sequence in place and drive the store: `remove_frame`, `set_frame_text`, `update!` and the constructor with `read_frames`.
  - `update!` is proved against `ReplayFrames`, a function that states what its `delete_if` pass keeps, adds and raises.
- **Constants**: the tag-type bitmasks `V1`, `V2`, `V_NONE`, `V_ALL` and `V_BOTH` (lib/id3lib.rb:15-23) are `ID3Lib.V1` … `ID3Lib.VBoth`, with `V_BOTH` computed by bitwise or.
- **Helpers**: `wrappers.dfy` holds `Option`, and `seqs.dfy` holds order-preserving filtering (`Array#delete_if`) with its subsequence and multiset properties.

**Where the model follows the code rather than a simpler reading of it**

- `update!` when Frame.write raises:
  - `Frame.write` raises when the frame has a `:textenc` but the record has no textenc field (`nil.set_integer`). It also raises when a non-numeric `:textenc` is compared with `0` on reaching a text field.
  - The exception leaves `update!` in the middle of `delete_if`. The model follows `Array#delete_if` as current MRI (the 2.x line onward) implements it: when the block raises, an `ensure` compacts the array. The tag then keeps the resolved frames already passed, followed by the offending frame and every frame after it. No `set_padding` or `update` call is made.
  - The model returns this outcome as `Raised(fault)`. The keep-exactly-the-resolved-frames property therefore holds when no write raises, and `UpdateStopsAtFault` states the other case.
- `Frame.read` of a record whose numeric code the registry does not resolve fails at lib/id3lib.rb:355. It is therefore a precondition of `Translation.Read` and of loading, not a skipped frame.

## Model

| member | source | states |
|---|---|---|
| ID3Lib.Find | lib/id3lib.rb:203-205 | `frame(id)` is nil exactly when no frame carries `id`; otherwise it is the frame at the first position carrying `id` |
| ID3Lib.FrameText | lib/id3lib.rb:217-220 | `frame_text(id)` is nil when no frame carries `id` (never a fault); when some frame carries `id`, it is the `:text` entry of the first such frame (nil if that frame has none) |
| ID3Lib.RemoveDropsOnlyId | lib/id3lib.rb:238-240 | after `remove_frame(id)` no frame carries `id`; every other frame keeps its multiplicity, and the result is a subsequence of the old frames |
| ID3Lib.Tag.RemoveFrame | lib/id3lib.rb:238-240 | the tag's frames become `Remove` of the old frames |
| ID3Lib.SetTextKeepsOthers | lib/id3lib.rb:228-233 | `set_frame_text` keeps every frame with another id at the same multiplicity; the frames before any appended one are a subsequence of the old frames, none carrying `id` |
| ID3Lib.SetTextThenFrameText | lib/id3lib.rb:228-233 | with nil, no frame carries `id`; with a text, the last frame is `{id, text}`, it is the only frame `frame(id)` finds, and `frame_text(id)` returns the text |
| ID3Lib.Tag.SetFrameText | lib/id3lib.rb:228-233 | the tag's frames become `SetText` of the old frames |
| ID3Lib.Undeclared | lib/id3lib.rb:328-330 | the rejected keys are exactly those neither declared nor `:id`, in the frame's key order |
| ID3Lib.ReportOf | lib/id3lib.rb:321-333 | a frame is reported exactly when it is invalid: `[id]` for an unknown id, `[id, undeclared keys…]` (non-empty) for a known one |
| ID3Lib.Reports | lib/id3lib.rb:319-336 | there are no reports exactly when every frame is valid; at most one report per frame |
| ID3Lib.InvalidFrames | lib/id3lib.rb:319-336 | `invalid_frames` is nil exactly when every frame's id is known and every key is declared; otherwise it is the non-empty list of reports |
| ID3Lib.ReportsAppend | lib/id3lib.rb:321-334 | reports come in sequence order: those of `a + b` are those of `a` followed by those of `b` |
| ID3Lib.InvalidFramesAfterAppends | test/test_reading.rb:68-80 | appending `TITS`, then `TALB` with an `invalid` key, then `APIC` with a `text` key to a valid tag yields `[[TITS]]`, then `[[TITS],[TALB,invalid]]`, then `[[TITS],[TALB,invalid],[APIC,text]]` |
| ID3Lib.LoadedFramesAreValid | lib/id3lib.rb:340-376 | with a consistent registry, the frames a load produces have no invalid frames (as test/test_reading.rb:69 expects of a fresh tag) |
| ID3Lib.SurvivorsAreResolved | lib/id3lib.rb:262-269 | the frames `update!` keeps are the resolved ones at their multiplicity, in order; unresolved ones are dropped |
| ID3Lib.LoadedFramesSurviveUpdate | lib/id3lib.rb:262-269 | with a consistent registry, `update!` drops none of the loaded frames |
| ID3Lib.ReplayFaultFree | lib/id3lib.rb:262-269 | the `update!` pass raises exactly when Frame.write raises on some resolved frame |
| ID3Lib.ReplayKeepsSurvivors | lib/id3lib.rb:262-269 | when no write raises, the pass keeps exactly the resolved frames in order, and adds one record per kept frame, in the same order, with that frame's code and writes |
| ID3Lib.UpdateKeepsResolved | lib/id3lib.rb:262-269 | combines the two: raises iff some write raises; otherwise kept frames = resolved frames, and `add_frame` calls pair up with them |
| ID3Lib.UpdateStopsAtFault | lib/id3lib.rb:262-269 | when a write raises, there is a position `j`: frame `j` raised that fault, the frames before `j` were written cleanly, and the tag holds the resolved frames before `j` followed by frames `j` onward, with one `add_frame` record per resolved frame before `j`, in order, each holding that frame's code and the writes Frame.write made into it; the raising frame gets no record |
| ID3Lib.Tag.AddFrames | lib/id3lib.rb:262-269 | the loop returns `ReplayFrames`' kept frames and fault, and appends exactly its `add_frame` calls to the store log |
| ID3Lib.Tag.Update | lib/id3lib.rb:255-273 | the store sees `strip(wt)`, `clear`, `link(filename, wt)`, the `add_frame` calls, then (unless a write raised) `set_padding(padding)` and `update(wt)`, with `wt` defaulting to the read type; the tag holds the pass's kept frames; the result is nil for 0, else the store's value, or the fault |
| ID3Lib.Tag.constructor | lib/id3lib.rb:175-183 | padding starts true; the read type defaults to `V_ALL` when omitted; the store is linked to the file with that read type, and the tag holds the decoded frames in store order |
| ID3Lib.Tag.ReadFrames | lib/id3lib.rb:340-345 | appends every record the store yields, decoded, in iteration order |
| Translation.Read | lib/id3lib.rb:352-376 | the loop builds exactly `Decoded` of the record |
| Translation.ReadFields | lib/id3lib.rb:352-376 | the decoded frame's id is the registry's for the code; a key has a value iff it is declared and the record has it; the value follows the field type, with text as Unicode iff that field's encoding is > 0 |
| Translation.DecodeFieldsDistinct | lib/id3lib.rb:357-373 | storing the decoded fields one by one into the hash never leaves a key twice |
| Translation.ReadKeysDistinct | lib/id3lib.rb:357-373 | the frame hash Frame.read builds holds each field at most once, whatever the declared field list |
| Translation.ReadKeyOrder | lib/id3lib.rb:357-373 | the decoded keys are the declared fields the record has, in declared order |
| Translation.DecodeFieldsGet | lib/id3lib.rb:357-373 | each visited declared field present in the record overwrites the hash value; others are left alone |
| Translation.DecodeFieldsKeys | lib/id3lib.rb:357-373 | the visited fields present in the record are appended to the key order |
| Frames.GetPut | lib/id3lib.rb:360 | after `h[k] = v`, `h[k]` is `v` and every other key reads as before |
| Frames.KeysPut | lib/id3lib.rb:360 | `h[k] = v` keeps the key order and appends a new key last |
| Frames.PutKeepsKeysDistinct | lib/id3lib.rb:360 | storing keeps hash keys distinct |
| Seqs.FilterIsSubsequence | lib/id3lib.rb:239 | `delete_if` keeps the elements it does not delete, at their multiplicity and in order |
| Translation.WriteEntry | lib/id3lib.rb:384-406 | one step of the main loop appends exactly `EntryWrites` of the entry to the record and returns its fault |
| Translation.Outcomes | lib/id3lib.rb:383-407 | the main loop's outcome from each position is that entry's writes followed, unless it raised, by the outcome from the next position; from the start it is `EncodeEntries` |
| Translation.WriteEntries | lib/id3lib.rb:383-407 | the main loop appends exactly the calls of that outcome from the start and returns its fault |
| Translation.Write | lib/id3lib.rb:378-408 | Frame.write appends exactly `Encode`'s calls to the record and returns its fault |
| TranslationProps.EncodeEntriesSound | lib/id3lib.rb:383-407 | every call made in the main loop is allowed: it targets a declared field, other than textenc, that the record offers and the frame holds; it carries the frame's value; its setter matches the field type; Unicode is used exactly under the rule |
| TranslationProps.EncodeEntriesComplete | lib/id3lib.rb:383-407 | without a fault, every declared, offered field the frame holds is written with its value |
| TranslationProps.EncodeEntriesFault | lib/id3lib.rb:392-406 | the loop raises exactly when textenc is present and non-numeric and some declared text field is reached, and then only as the comparison fault |
| TranslationProps.EncodeEntriesUnicodePairs | lib/id3lib.rb:397-402 | every `set_unicode` is immediately preceded by `set_encoding` of the same field |
| TranslationProps.WriteTextEncodingFirst | lib/id3lib.rb:379-384 | a present textenc is written first as an integer and never again; without one, textenc is never written |
| TranslationProps.WriteSound | lib/id3lib.rb:378-408 | every call is the initial textenc write or an allowed call, and Unicode writes follow their encoding write |
| TranslationProps.WriteComplete | lib/id3lib.rb:378-408 | without a fault, every declared field the frame holds and the record offers is written with the frame's value |
| TranslationProps.WriteFaults | lib/id3lib.rb:379-398 | Frame.write raises the missing-field fault exactly when textenc is present but not offered, and then makes no call; it raises the comparison fault exactly when textenc is offered, non-numeric, and a declared text field is reached |

## Left out

- The native codec behind `API::Tag` and `API::Frame` is not modelled beyond its call log: ID3v1/ID3v2 byte layout, file I/O, padding, `size`, `has_tag?` and `has_tag_type?` (lib/id3lib.rb:189-191, 285-308). These are foreign code.
- `Tag.strip!` (lib/id3lib.rb:156-160) is not modelled. It only delegates to the store.
- The concrete frame and field tables of `ID3Lib::Info` are not modelled. `lib/id3lib/info.rb` is not part of this model, so the registry is a parameter.
- `ID3Lib::Accessors` (`title`, `year`, …) is not part of this model.
- `Frame.field` (lib/id3lib.rb:410-412) is folded into the records: a native record is keyed by field identifier rather than by `Info.field(id)[NUM]`, and `nil` for an absent field is a missing key. The translation `Info::FieldType[get_type]` is folded in the same way: each native field carries its field type.
- The `:id` hash key is the frame's identifier component and not an entry. `Frame.write`'s loop therefore never visits it; the source would skip it anyway unless the registry declared a field named `:id`.
- Text is opaque: there is no ASCII/Unicode conversion and no `to_s` coercion in `set_frame_text`. A field value is an integer, a byte string or a text. `false` as a `:textenc` value and types that the native setters would reject (for example a string given to `set_integer`) are not modelled.
- Translation.Read: requires the record's numeric code to resolve in the registry. The source raises there (lib/id3lib.rb:355) rather than skipping the record.
- Translation.ReadKeyOrder: requires the declared field list to be free of repeats. The key order for a list with repeats is not stated.
- ID3Lib.LoadedFramesAreValid: assumes a registry whose two lookups agree (`Consistent`). The source relies on `Info` being one table.
- Older MRI (1.8 to 1.9.3) is not modelled for a raising `delete_if`. Its loop had no `ensure`: it copied each kept element down over the front of the array and shortened the array only after the loop ended. A raise therefore left the kept prefix written over the front, followed by the original elements from the first unfilled slot on (`[X, B, C]` with `X` deleted and `C` raising became `[B, B, C]`). The model follows current MRI instead.
- A round trip between `Frame.write` and `Frame.read` is not stated. It would need the store's internal semantics, which are not shown.
