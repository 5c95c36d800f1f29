/** Frame.read and Frame.write: translation between a frame hash and a native
    record, field by field, as the registry declares the fields. */
module Translation {
  import opened Wrappers
  import opened Frames
  import opened Info
  import opened Native

  // ---------------------------------------------------------------- reading

  /** The value Frame.read takes from one native field. */
  function DecodeField(nf: NativeField): Value {
    match nf.kind
    case Integer => Int(nf.integer)
    case Binary => Bin(nf.binary)
    case Text => Str(if nf.encoding > 0 then nf.unicode else nf.ascii)
  }

  /** The frame hash `acc` after Frame.read has visited the declared fields
      `declared`, skipping those the record does not have. */
  function DecodeFields(acc: Entries, declared: seq<FieldId>, raw: map<FieldId, NativeField>): Entries
    decreases |declared|
  {
    if declared == [] then acc
    else
      var k := declared[0];
      DecodeFields(if k in raw then Put(acc, k, DecodeField(raw[k])) else acc, declared[1..], raw)
  }

  /** The frame Frame.read builds from a record whose code the registry resolves. */
  function Decoded(info: Registry, raw: RawFrame): Frame
    requires raw.code in info.byNum
  {
    Frame(info.byNum[raw.code].id, DecodeFields([], info.byNum[raw.code].fields, raw.fields))
  }

  /** The declared fields that the record has, in declared order. */
  function Present(declared: seq<FieldId>, raw: map<FieldId, NativeField>): seq<FieldId> {
    if declared == [] then []
    else if declared[0] in raw then [declared[0]] + Present(declared[1..], raw)
    else Present(declared[1..], raw)
  }

  /** Frame.read: decodes one record into a frame hash. */
  method Read(info: Registry, raw: RawFrame) returns (frame: Frame)
    requires raw.code in info.byNum
    ensures frame == Decoded(info, raw)
  {
    var entry := info.byNum[raw.code];
    var fields: Entries := [];
    var i := 0;
    while i < |entry.fields|
      invariant 0 <= i <= |entry.fields|
      invariant DecodeFields(fields, entry.fields[i..], raw.fields) == DecodeFields([], entry.fields, raw.fields)
    {
      var k := entry.fields[i];
      assert entry.fields[i..][1..] == entry.fields[i + 1..];
      if k in raw.fields {
        var nf := raw.fields[k];
        var v;
        match nf.kind {
          case Integer => v := Int(nf.integer);
          case Binary => v := Bin(nf.binary);
          case Text =>
            if nf.encoding > 0 {
              v := Str(nf.unicode);
            } else {
              v := Str(nf.ascii);
            }
        }
        fields := Put(fields, k, v);
      }
      i := i + 1;
    }
    frame := Frame(entry.id, fields);
  }

  lemma {:induction false} DecodeFieldsGet(acc: Entries, declared: seq<FieldId>, raw: map<FieldId, NativeField>, k: FieldId)
    ensures Get(DecodeFields(acc, declared, raw), k) ==
            if k in declared && k in raw then Some(DecodeField(raw[k])) else Get(acc, k)
    decreases |declared|
  {
    if declared != [] {
      var d := declared[0];
      var acc' := if d in raw then Put(acc, d, DecodeField(raw[d])) else acc;
      DecodeFieldsGet(acc', declared[1..], raw, k);
      if d in raw {
        GetPut(acc, d, DecodeField(raw[d]), k);
      }
      assert k in declared <==> k == d || k in declared[1..];
    }
  }

  lemma {:induction false} DecodeFieldsKeys(acc: Entries, declared: seq<FieldId>, raw: map<FieldId, NativeField>)
    requires NoDuplicates(declared)
    requires forall k :: k in declared ==> k !in Keys(acc)
    ensures Keys(DecodeFields(acc, declared, raw)) == Keys(acc) + Present(declared, raw)
    decreases |declared|
  {
    if declared != [] {
      var d := declared[0];
      var acc' := if d in raw then Put(acc, d, DecodeField(raw[d])) else acc;
      if d in raw {
        KeysPut(acc, d, DecodeField(raw[d]));
      }
      assert forall k :: k in declared[1..] ==> k !in Keys(acc') by {
        forall k | k in declared[1..] ensures k !in Keys(acc') {
          var j :| 0 <= j < |declared[1..]| && declared[1..][j] == k;
          assert declared[j + 1] == k && declared[0] == d;
        }
      }
      assert NoDuplicates(declared[1..]) by {
        forall i, j | 0 <= i < j < |declared[1..]| ensures declared[1..][i] != declared[1..][j] {
          assert declared[1..][i] == declared[i + 1] && declared[1..][j] == declared[j + 1];
        }
      }
      DecodeFieldsKeys(acc', declared[1..], raw);
      var now := if d in raw then [d] else [];
      assert Keys(acc') == Keys(acc) + now;
      assert Present(declared, raw) == now + Present(declared[1..], raw);
      assert (Keys(acc) + now) + Present(declared[1..], raw) == Keys(acc) + (now + Present(declared[1..], raw));
    }
  }

  /** Decoding stores each field with `h[k] = v`, so the hash it builds never holds
      a key twice, whatever the declared field list. */
  lemma {:induction false} DecodeFieldsDistinct(acc: Entries, declared: seq<FieldId>, raw: map<FieldId, NativeField>)
    requires DistinctKeys(acc)
    ensures DistinctKeys(DecodeFields(acc, declared, raw))
    decreases |declared|
  {
    if declared != [] {
      var d := declared[0];
      if d in raw {
        PutKeepsKeysDistinct(acc, d, DecodeField(raw[d]));
      }
      DecodeFieldsDistinct(if d in raw then Put(acc, d, DecodeField(raw[d])) else acc, declared[1..], raw);
    }
  }

  /** Frame.read names the frame by the registry's identifier for the record's code
      and holds exactly the declared fields the record has, each decoded by its own
      type: integer and binary as such, text as Unicode exactly when that field's own
      encoding is positive. */
  lemma ReadFields(info: Registry, raw: RawFrame, k: FieldId)
    requires raw.code in info.byNum
    ensures Decoded(info, raw).id == info.byNum[raw.code].id
    ensures var r := Get(Decoded(info, raw).fields, k);
      if k in info.byNum[raw.code].fields && k in raw.fields then
        var nf := raw.fields[k];
        r == Some(match nf.kind
                  case Integer => Int(nf.integer)
                  case Binary => Bin(nf.binary)
                  case Text => Str(if nf.encoding > 0 then nf.unicode else nf.ascii))
      else r == None
  {
    DecodeFieldsGet([], info.byNum[raw.code].fields, raw.fields, k);
  }

  /** With a declared field list free of repeats, the decoded hash's keys are the
      declared fields the record has, in declared order. */
  lemma ReadKeyOrder(info: Registry, raw: RawFrame)
    requires raw.code in info.byNum
    requires NoDuplicates(info.byNum[raw.code].fields)
    ensures Keys(Decoded(info, raw).fields) == Present(info.byNum[raw.code].fields, raw.fields)
  {
    DecodeFieldsKeys([], info.byNum[raw.code].fields, raw.fields);
  }

  /** The frame hash Frame.read builds holds no field twice. */
  lemma ReadKeysDistinct(info: Registry, raw: RawFrame)
    requires raw.code in info.byNum
    ensures DistinctKeys(Decoded(info, raw).fields)
  {
    DecodeFieldsDistinct([], info.byNum[raw.code].fields, raw.fields);
  }

  // ---------------------------------------------------------------- writing

  /** Text fields written as Unicode when the frame's text encoding is positive. */
  const UnicodeFields: seq<FieldId> := [TextField, Description, Filename]

  /** The two ways Frame.write raises: `field(libframe, :textenc)` is nil because
      the record has no textenc field, or `textenc > 0` compares a non-number. */
  datatype Fault = NoEncodingField | EncodingNotComparable

  /** The setter calls Frame.write made, in order, and the fault it stopped at, if any. */
  datatype Encoding = Encoding(calls: seq<FieldWrite>, fault: Option<Fault>)

  /** `done` followed by what `rest` did. */
  function Then(done: seq<FieldWrite>, rest: Encoding): Encoding {
    Encoding(done + rest.calls, rest.fault)
  }

  /** Whether text field `k` goes out as Unicode under the frame's textenc `te`. */
  predicate WantsUnicode(te: Option<Value>, k: FieldId) {
    te.Some? && te.value.Int? && te.value.n > 0 && k in UnicodeFields
  }

  /** What Frame.write's main loop does with the entry `k => v`. */
  function EntryWrites(te: Option<Value>, declared: seq<FieldId>, shape: map<FieldId, FieldType>, k: FieldId, v: Value): Encoding {
    if k == TextEnc || k !in declared || k !in shape then Encoding([], None)
    else match shape[k]
      case Integer => Encoding([SetInteger(k, v)], None)
      case Binary => Encoding([SetBinary(k, v)], None)
      case Text =>
        if te.None? then Encoding([SetAscii(k, v)], None)
        else if !te.value.Int? then Encoding([], Some(EncodingNotComparable))
        else if te.value.n > 0 && k in UnicodeFields then Encoding([SetEncoding(k, te.value.n), SetUnicode(k, v)], None)
        else Encoding([SetAscii(k, v)], None)
  }

  /** Frame.write's main loop over the entries `es`, stopping at the first fault. */
  function EncodeEntries(te: Option<Value>, declared: seq<FieldId>, shape: map<FieldId, FieldType>, es: Entries): Encoding
    decreases |es|
  {
    if es == [] then Encoding([], None)
    else
      var e := EntryWrites(te, declared, shape, es[0].0, es[0].1);
      if e.fault.Some? then e
      else Then(e.calls, EncodeEntries(te, declared, shape, es[1..]))
  }

  /** Everything Frame.write does to a fresh record with fields `shape`. */
  function Encode(info: Registry, f: Frame, shape: map<FieldId, FieldType>): Encoding
    requires f.id in info.byId
  {
    var te := Get(f.fields, TextEnc);
    if te.Some? && TextEnc !in shape then Encoding([], Some(NoEncodingField))
    else Then(if te.Some? then [SetInteger(TextEnc, te.value)] else [],
              EncodeEntries(te, info.Declared(f.id), shape, f.fields))
  }

  /** The body of Frame.write's main loop for the entry `k => v`: skip it unless the
      field is declared and the record has it, then dispatch on the record's field type. */
  method WriteEntry(te: Option<Value>, declared: seq<FieldId>, rec: NativeFrame, k: FieldId, v: Value)
    returns (fault: Option<Fault>)
    modifies rec
    ensures rec.writes == old(rec.writes) + EntryWrites(te, declared, rec.shape, k, v).calls
    ensures fault == EntryWrites(te, declared, rec.shape, k, v).fault
  {
    fault := None;
    if k == TextEnc || k !in declared || k !in rec.shape {
      return;
    }
    match rec.shape[k] {
      case Integer =>
        rec.Set(SetInteger(k, v));
      case Binary =>
        rec.Set(SetBinary(k, v));
      case Text =>
        if te.Some? && !te.value.Int? {
          fault := Some(EncodingNotComparable);
        } else if te.Some? && te.value.n > 0 && k in UnicodeFields {
          rec.Set(SetEncoding(k, te.value.n));
          rec.Set(SetUnicode(k, v));
        } else {
          rec.Set(SetAscii(k, v));
        }
    }
  }

  /** Frame.write: sets the text encoding first, then writes every declared field
      the record offers, dispatching on the record's field type. */
  method Write(info: Registry, f: Frame, rec: NativeFrame) returns (fault: Option<Fault>)
    requires f.id in info.byId
    modifies rec
    ensures rec.writes == old(rec.writes) + Encode(info, f, rec.shape).calls
    ensures fault == Encode(info, f, rec.shape).fault
  {
    var te := Get(f.fields, TextEnc);
    ghost var prefix: seq<FieldWrite> := [];
    if te.Some? {
      if TextEnc !in rec.shape {
        return Some(NoEncodingField);
      }
      rec.Set(SetInteger(TextEnc, te.value));
      prefix := [SetInteger(TextEnc, te.value)];
    }
    var declared := info.byId[f.id].fields;
    ghost var tails := Outcomes(te, declared, rec.shape, f.fields);
    fault := WriteEntries(te, declared, rec, f.fields, tails);
    assert rec.writes == old(rec.writes) + (prefix + tails[0].calls);
  }

  /** One step of the main loop: the entry at `i`, then the rest unless it raised. */
  lemma EncodeEntriesStep(te: Option<Value>, declared: seq<FieldId>, shape: map<FieldId, FieldType>, es: Entries, i: nat)
    requires i < |es|
    ensures var step := EntryWrites(te, declared, shape, es[i].0, es[i].1);
      EncodeEntries(te, declared, shape, es[i..]) ==
      if step.fault.Some? then step else Then(step.calls, EncodeEntries(te, declared, shape, es[i + 1..]))
  {
    assert es[i..][0] == es[i] && es[i..][1..] == es[i + 1..];
  }

  /** `tails[j]`, what the main loop does from position `j` of `es` on, is the entry at
      `j` followed, unless that raised, by `tails[j + 1]`. */
  predicate Chained(te: Option<Value>, declared: seq<FieldId>, shape: map<FieldId, FieldType>, es: Entries,
                    tails: seq<Encoding>, j: int)
    requires 0 <= j < |es| && |tails| == |es| + 1
  {
    var step := EntryWrites(te, declared, shape, es[j].0, es[j].1);
    if step.fault.Some? then tails[j] == step
    else tails[j].calls == step.calls + tails[j + 1].calls && tails[j].fault == tails[j + 1].fault
  }

  /** What the main loop does from each position of `es` on, as a chain of single
      entries ending in nothing. */
  lemma Outcomes(te: Option<Value>, declared: seq<FieldId>, shape: map<FieldId, FieldType>, es: Entries)
    returns (tails: seq<Encoding>)
    ensures |tails| == |es| + 1
    ensures tails[0] == EncodeEntries(te, declared, shape, es) && tails[|es|] == Encoding([], None)
    ensures forall j :: 0 <= j < |es| ==> Chained(te, declared, shape, es, tails, j)
  {
    tails := seq(|es| + 1, j requires 0 <= j <= |es| => EncodeEntries(te, declared, shape, es[j..]));
    forall j | 0 <= j < |es| ensures Chained(te, declared, shape, es, tails, j) {
      EncodeEntriesStep(te, declared, shape, es, j);
    }
  }

  /** Frame.write's main loop (`frame.each`) over the entries `es`, whose outcome from
      each position on is `tails` (see `Outcomes`). */
  method WriteEntries(te: Option<Value>, declared: seq<FieldId>, rec: NativeFrame, es: Entries,
                      ghost tails: seq<Encoding>)
    returns (fault: Option<Fault>)
    requires |tails| == |es| + 1 && tails[|es|] == Encoding([], None)
    requires forall j :: 0 <= j < |es| ==> Chained(te, declared, rec.shape, es, tails, j)
    modifies rec
    ensures rec.writes == old(rec.writes) + tails[0].calls && fault == tails[0].fault
  {
    ghost var start, done := rec.writes, [];
    var i := 0;
    while i < |es|
      invariant 0 <= i <= |es|
      invariant rec.writes == start + done
      invariant tails[0].calls == done + tails[i].calls && tails[0].fault == tails[i].fault
    {
      ghost var step := EntryWrites(te, declared, rec.shape, es[i].0, es[i].1);
      assert Chained(te, declared, rec.shape, es, tails, i);
      fault := WriteEntry(te, declared, rec, es[i].0, es[i].1);
      if fault.Some? {
        assert tails[i] == step;
        return;
      }
      assert done + (step.calls + tails[i + 1].calls) == (done + step.calls) + tails[i + 1].calls;
      done := done + step.calls;
      i := i + 1;
    }
    return None;
  }
}

/** What Frame.write promises about the calls it makes. */
module TranslationProps {
  import opened Wrappers
  import opened Frames
  import opened Info
  import opened Native
  import opened Translation

  /** A declared field, other than textenc, that the record offers. */
  predicate Target(declared: seq<FieldId>, shape: map<FieldId, FieldType>, k: FieldId) {
    k != TextEnc && k in declared && k in shape
  }

  /** A setter call the rules of the main loop allow for entries `es`: it targets a
      declared field the record offers and the frame holds, carries the frame's own
      value, matches the record's field type, and uses Unicode exactly for the
      encoding-sensitive text fields under a positive textenc. */
  predicate Allowed(te: Option<Value>, declared: seq<FieldId>, shape: map<FieldId, FieldType>, es: Entries, c: FieldWrite) {
    Target(declared, shape, c.field) && c.field in Keys(es) &&
    (!c.SetEncoding? ==> (c.field, c.value) in es) &&
    (c.SetInteger? ==> shape[c.field] == Integer) &&
    (c.SetBinary? ==> shape[c.field] == Binary) &&
    (c.SetAscii? ==> shape[c.field] == Text && !WantsUnicode(te, c.field)) &&
    (c.SetUnicode? ==> shape[c.field] == Text && WantsUnicode(te, c.field)) &&
    (c.SetEncoding? ==> shape[c.field] == Text && WantsUnicode(te, c.field) && c.enc == te.value.n)
  }

  lemma {:induction false} EncodeEntriesSound(te: Option<Value>, declared: seq<FieldId>, shape: map<FieldId, FieldType>, es: Entries)
    ensures forall c :: c in EncodeEntries(te, declared, shape, es).calls ==> Allowed(te, declared, shape, es, c)
    decreases |es|
  {
    if es != [] {
      var e := EntryWrites(te, declared, shape, es[0].0, es[0].1);
      assert es[0] in es;
      assert Keys(es)[0] == es[0].0;
      if e.fault.None? {
        EncodeEntriesSound(te, declared, shape, es[1..]);
        forall c | c in EncodeEntries(te, declared, shape, es[1..]).calls
          ensures Allowed(te, declared, shape, es, c)
        {
          assert Allowed(te, declared, shape, es[1..], c);
          var j :| 0 <= j < |es[1..]| && Keys(es[1..])[j] == c.field;
          assert Keys(es)[j + 1] == c.field;
          if !c.SetEncoding? {
            assert (c.field, c.value) in es[1..];
          }
        }
      }
    }
  }

  lemma {:induction false} EncodeEntriesComplete(te: Option<Value>, declared: seq<FieldId>, shape: map<FieldId, FieldType>, es: Entries)
    requires EncodeEntries(te, declared, shape, es).fault.None?
    ensures forall i :: 0 <= i < |es| && Target(declared, shape, es[i].0) ==>
      exists c :: c in EncodeEntries(te, declared, shape, es).calls && !c.SetEncoding? && c.field == es[i].0 && c.value == es[i].1
    decreases |es|
  {
    if es != [] {
      var e := EntryWrites(te, declared, shape, es[0].0, es[0].1);
      var rest := EncodeEntries(te, declared, shape, es[1..]);
      EncodeEntriesComplete(te, declared, shape, es[1..]);
      var all := EncodeEntries(te, declared, shape, es).calls;
      assert all == e.calls + rest.calls;
      forall i | 0 <= i < |es| && Target(declared, shape, es[i].0)
        ensures exists c :: c in all && !c.SetEncoding? && c.field == es[i].0 && c.value == es[i].1
      {
        if i == 0 {
          var c := e.calls[|e.calls| - 1];
          assert c in all;
        } else {
          assert es[1..][i - 1] == es[i];
          var c :| c in rest.calls && !c.SetEncoding? && c.field == es[i].0 && c.value == es[i].1;
          assert c in all;
        }
      }
    }
  }

  lemma {:induction false} EncodeEntriesFault(te: Option<Value>, declared: seq<FieldId>, shape: map<FieldId, FieldType>, es: Entries)
    ensures var e := EncodeEntries(te, declared, shape, es);
      (e.fault.Some? <==>
        te.Some? && !te.value.Int? && exists i :: 0 <= i < |es| && Target(declared, shape, es[i].0) && shape[es[i].0] == Text) &&
      (e.fault.Some? ==> e.fault == Some(EncodingNotComparable))
    decreases |es|
  {
    if es != [] {
      EncodeEntriesFault(te, declared, shape, es[1..]);
      forall i | 1 <= i < |es| ensures es[1..][i - 1] == es[i] { }
    }
  }

  /** A Unicode value is always written right after the encoding of the same field. */
  lemma {:induction false} EncodeEntriesUnicodePairs(te: Option<Value>, declared: seq<FieldId>, shape: map<FieldId, FieldType>, es: Entries)
    ensures var calls := EncodeEntries(te, declared, shape, es).calls;
      forall j :: 0 <= j < |calls| && calls[j].SetUnicode? ==>
        0 < j && calls[j - 1].SetEncoding? && calls[j - 1].field == calls[j].field
    decreases |es|
  {
    if es != [] {
      var e := EntryWrites(te, declared, shape, es[0].0, es[0].1);
      if e.fault.None? {
        var rest := EncodeEntries(te, declared, shape, es[1..]).calls;
        EncodeEntriesUnicodePairs(te, declared, shape, es[1..]);
        var calls := e.calls + rest;
        assert e.calls == [] || (|e.calls| == 1 && !e.calls[0].SetUnicode?) ||
               (|e.calls| == 2 && e.calls[0].SetEncoding? && e.calls[1].SetUnicode? && e.calls[0].field == e.calls[1].field);
        forall j | 0 <= j < |calls| && calls[j].SetUnicode?
          ensures 0 < j && calls[j - 1].SetEncoding? && calls[j - 1].field == calls[j].field
        {
          if j >= |e.calls| {
            assert calls[j] == rest[j - |e.calls|];
            assert rest == EncodeEntries(te, declared, shape, es[1..]).calls;
            if j - |e.calls| > 0 {
              assert calls[j - 1] == rest[j - |e.calls| - 1];
            }
          }
        }
      }
    }
  }

  /** Frame.write writes a present textenc first, as an integer, and never again;
      a frame without textenc gets no write to that field. */
  lemma WriteTextEncodingFirst(info: Registry, f: Frame, shape: map<FieldId, FieldType>)
    requires f.id in info.byId
    ensures var te := Get(f.fields, TextEnc); var calls := Encode(info, f, shape).calls;
      (te.Some? && TextEnc in shape ==> calls != [] && calls[0] == SetInteger(TextEnc, te.value)) &&
      (forall j :: 0 <= j < |calls| && calls[j].field == TextEnc ==> j == 0 && te.Some?)
  {
    var te := Get(f.fields, TextEnc);
    EncodeEntriesSound(te, info.Declared(f.id), shape, f.fields);
    var calls := Encode(info, f, shape).calls;
    var rest := EncodeEntries(te, info.Declared(f.id), shape, f.fields).calls;
    assert forall m :: 0 <= m < |rest| ==> rest[m].field != TextEnc by {
      forall m | 0 <= m < |rest| ensures rest[m].field != TextEnc {
        assert rest[m] in rest;
      }
    }
    if !(te.Some? && TextEnc !in shape) {
      assert calls == (if te.Some? then [SetInteger(TextEnc, te.value)] else []) + rest;
    }
  }

  /** Frame.write makes only allowed calls: after the textenc write, every call targets
      a declared field the record offers, with the frame's value for it, by the
      record's field type, as Unicode exactly under the Unicode rule; a Unicode write
      always follows the encoding write for the same field. */
  lemma WriteSound(info: Registry, f: Frame, shape: map<FieldId, FieldType>)
    requires f.id in info.byId
    ensures var te := Get(f.fields, TextEnc); var calls := Encode(info, f, shape).calls;
      (forall c :: c in calls ==> (te.Some? && c == SetInteger(TextEnc, te.value)) || Allowed(te, info.Declared(f.id), shape, f.fields, c)) &&
      (forall j :: 0 <= j < |calls| && calls[j].SetUnicode? ==> 0 < j && calls[j - 1].SetEncoding? && calls[j - 1].field == calls[j].field)
  {
    var te := Get(f.fields, TextEnc);
    var declared := info.Declared(f.id);
    EncodeEntriesSound(te, declared, shape, f.fields);
    EncodeEntriesUnicodePairs(te, declared, shape, f.fields);
    var calls := Encode(info, f, shape).calls;
    var rest := EncodeEntries(te, declared, shape, f.fields).calls;
    if !(te.Some? && TextEnc !in shape) {
      var k := if te.Some? then 1 else 0;
      assert calls == (if te.Some? then [SetInteger(TextEnc, te.value)] else []) + rest;
      forall j | 0 <= j < |calls| && calls[j].SetUnicode?
        ensures 0 < j && calls[j - 1].SetEncoding? && calls[j - 1].field == calls[j].field
      {
        if j >= k {
          assert calls[j] == rest[j - k];
          assert rest == EncodeEntries(te, declared, shape, f.fields).calls;
          if j - k > 0 {
            assert calls[j - 1] == rest[j - k - 1];
          }
        }
      }
    }
  }

  /** When Frame.write does not raise, every declared field the frame holds and the
      record offers is written, with the frame's own value. */
  lemma WriteComplete(info: Registry, f: Frame, shape: map<FieldId, FieldType>)
    requires f.id in info.byId
    requires Encode(info, f, shape).fault.None?
    ensures forall i :: 0 <= i < |f.fields| && Target(info.Declared(f.id), shape, f.fields[i].0) ==>
      exists c :: c in Encode(info, f, shape).calls && !c.SetEncoding? && c.field == f.fields[i].0 && c.value == f.fields[i].1
  {
    var te := Get(f.fields, TextEnc);
    EncodeEntriesComplete(te, info.Declared(f.id), shape, f.fields);
  }

  /** Frame.write raises exactly when a present textenc has no field in the record
      (before any write), or when it is not a number and some declared text field the
      record offers is reached. */
  lemma WriteFaults(info: Registry, f: Frame, shape: map<FieldId, FieldType>)
    requires f.id in info.byId
    ensures var te := Get(f.fields, TextEnc); var e := Encode(info, f, shape);
      (e.fault == Some(NoEncodingField) <==> te.Some? && TextEnc !in shape) &&
      (e.fault == Some(NoEncodingField) ==> e.calls == []) &&
      (e.fault == Some(EncodingNotComparable) <==>
        te.Some? && TextEnc in shape && !te.value.Int? &&
        exists i :: 0 <= i < |f.fields| && Target(info.Declared(f.id), shape, f.fields[i].0) && shape[f.fields[i].0] == Text)
  {
    EncodeEntriesFault(Get(f.fields, TextEnc), info.Declared(f.id), shape, f.fields);
  }
}
