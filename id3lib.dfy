/** ID3Lib::Tag: a tag is an ordered sequence of frames, loaded from the native
    store at construction, edited in place, and written back by `update!`. */
module ID3Lib {
  import opened Wrappers
  import opened Seqs
  import opened Frames
  import opened Info
  import opened Native
  import opened Translation

  /** Tag-type bitmasks accepted by `new`, `update!` and `strip!`. */
  const V1: int := 1
  const V2: int := 2
  const VNone: int := 0
  const VAll: int := 0xff
  const VBoth: int := (V1 as bv8 | V2 as bv8) as int

  // ------------------------------------------------------------ lookups

  /** `frame(id)`: the first frame carrying `id`, or nil. */
  function Find(fs: seq<Frame>, id: FrameId): (r: Option<Frame>)
    ensures r.None? <==> forall i :: 0 <= i < |fs| ==> fs[i].id != id
    ensures r.Some? ==> exists i :: 0 <= i < |fs| && fs[i] == r.value && fs[i].id == id &&
                                    forall j :: 0 <= j < i ==> fs[j].id != id
  {
    if fs == [] then None
    else if fs[0].id == id then Some(fs[0])
    else
      var r := Find(fs[1..], id);
      assert r.Some? ==> forall i :: 0 <= i < |fs[1..]| ==> fs[1..][i] == fs[i + 1];
      r
  }

  /** `frame_text(id)`: the text of the first frame carrying `id`; nil when there is no
      such frame (or it has no text), never a fault. */
  function FrameText(fs: seq<Frame>, id: FrameId): (r: Option<Value>)
    ensures (forall i :: 0 <= i < |fs| ==> fs[i].id != id) ==> r.None?
    ensures r.Some? ==> exists i :: 0 <= i < |fs| && fs[i].id == id && Get(fs[i].fields, TextField) == r &&
                                    forall j :: 0 <= j < i ==> fs[j].id != id
    ensures forall i :: 0 <= i < |fs| && fs[i].id == id && (forall j :: 0 <= j < i ==> fs[j].id != id) ==>
                        r == Get(fs[i].fields, TextField)
  {
    match Find(fs, id)
    case None => None
    case Some(f) => Get(f.fields, TextField)
  }

  // ------------------------------------------------------------ in-place edits

  /** `remove_frame(id)`: `delete_if` on the frames carrying `id`. */
  function Remove(fs: seq<Frame>, id: FrameId): seq<Frame> {
    Filter(fs, (f: Frame) => f.id != id)
  }

  /** After `remove_frame(id)` no frame carries `id`; every other frame is kept, as
      often as it occurred, in its original relative order. */
  lemma RemoveDropsOnlyId(fs: seq<Frame>, id: FrameId)
    ensures forall f: Frame :: multiset(Remove(fs, id))[f] == if f.id == id then 0 else multiset(fs)[f]
    ensures forall i :: 0 <= i < |Remove(fs, id)| ==> Remove(fs, id)[i].id != id
    ensures Subsequence(Remove(fs, id), fs)
  {
    FilterIsSubsequence(fs, (f: Frame) => f.id != id);
  }

  /** The frame `set_frame_text` appends. */
  function TextFrame(id: FrameId, text: string): Frame {
    Frame(id, [(TextField, Str(text))])
  }

  /** `set_frame_text(id, text)`: removes the frames carrying `id`, then appends one
      holding the text, if there is one. */
  function SetText(fs: seq<Frame>, id: FrameId, text: Option<string>): seq<Frame> {
    match text
    case None => Remove(fs, id)
    case Some(t) => Remove(fs, id) + [TextFrame(id, t)]
  }

  /** Either way, `set_frame_text(id, _)` keeps every frame not carrying `id`, as often
      as it occurred, in its original order, before any frame it appends. */
  lemma SetTextKeepsOthers(fs: seq<Frame>, id: FrameId, text: Option<string>)
    ensures var r := SetText(fs, id, text);
      var kept := if text.None? then r else r[..|r| - 1];
      |r| == |kept| + (if text.None? then 0 else 1) &&
      (forall f: Frame :: f.id != id ==> multiset(r)[f] == multiset(fs)[f]) &&
      Subsequence(kept, fs) && forall i :: 0 <= i < |kept| ==> kept[i].id != id
  {
    RemoveDropsOnlyId(fs, id);
    var rest := Remove(fs, id);
    if text.Some? {
      var r := rest + [TextFrame(id, text.value)];
      assert r[..|r| - 1] == rest;
    }
  }

  /** With nil, `set_frame_text(id, nil)` leaves no frame carrying `id`; with a text,
      exactly one frame carries `id` afterwards, the last, holding just that text, and
      `frame_text(id)` returns it. */
  lemma SetTextThenFrameText(fs: seq<Frame>, id: FrameId, text: Option<string>)
    ensures text.None? ==> Find(SetText(fs, id, text), id).None?
    ensures text.Some? ==>
      var r := SetText(fs, id, text);
      |r| > 0 && r[|r| - 1] == TextFrame(id, text.value) &&
      Find(r, id) == Some(TextFrame(id, text.value)) &&
      FrameText(r, id) == Some(Str(text.value))
  {
    RemoveDropsOnlyId(fs, id);
    var rest := Remove(fs, id);
    if text.Some? {
      var r := rest + [TextFrame(id, text.value)];
      assert Find(r, id) == Some(TextFrame(id, text.value)) by {
        var k :| 0 <= k < |r| && r[k] == Find(r, id).value && r[k].id == id &&
                 forall j :: 0 <= j < k ==> r[j].id != id;
        assert k == |r| - 1;
      }
    }
  }

  // ------------------------------------------------------------ validation

  /** One entry of `invalid_frames`: `[id]` for an unknown identifier, `[id, f1, ...]`
      for a known one with undeclared fields. */
  datatype Report = Report(id: FrameId, fields: seq<FieldId>)

  /** A frame the registry accepts: known identifier, every key declared (or `:id`). */
  predicate ValidFrame(info: Registry, f: Frame) {
    f.id in info.byId && forall k :: k in Keys(f.fields) ==> k in info.Declared(f.id) || k == IdKey
  }

  /** The keys of a frame that its declaration does not list, in the frame's key order. */
  function Undeclared(ks: seq<FieldId>, declared: seq<FieldId>): (r: seq<FieldId>)
    ensures forall k :: k in r <==> k in ks && k !in declared && k != IdKey
    ensures Subsequence(r, ks)
  {
    var keep := (k: FieldId) => k !in declared && k != IdKey;
    FilterIsSubsequence(ks, keep);
    var r := Filter(ks, keep);
    assert forall k :: k in r <==> k in multiset(r);
    r
  }

  /** What `invalid_frames` reports about one frame, if anything. */
  function ReportOf(info: Registry, f: Frame): (r: Option<Report>)
    ensures r.None? <==> ValidFrame(info, f)
    ensures r.Some? ==> r.value.id == f.id
    ensures r.Some? && f.id !in info.byId ==> r.value.fields == []
    ensures r.Some? && f.id in info.byId ==> r.value.fields == Undeclared(Keys(f.fields), info.Declared(f.id)) != []
  {
    if f.id !in info.byId then Some(Report(f.id, []))
    else
      var bad := Undeclared(Keys(f.fields), info.Declared(f.id));
      if bad == [] then None else Some(Report(f.id, bad))
  }

  /** The reports for `fs`, one per offending frame, in sequence order. */
  function Reports(info: Registry, fs: seq<Frame>): (r: seq<Report>)
    ensures |r| <= |fs|
    ensures r == [] <==> forall i :: 0 <= i < |fs| ==> ValidFrame(info, fs[i])
  {
    if fs == [] then []
    else
      var rest := Reports(info, fs[1..]);
      assert forall i :: 1 <= i < |fs| ==> fs[1..][i - 1] == fs[i];
      match ReportOf(info, fs[0])
      case None => rest
      case Some(rep) => [rep] + rest
  }

  /** `invalid_frames`: nil exactly when every frame is valid, otherwise the reports. */
  function InvalidFrames(info: Registry, fs: seq<Frame>): (r: Option<seq<Report>>)
    ensures r.None? <==> forall i :: 0 <= i < |fs| ==> ValidFrame(info, fs[i])
    ensures r.Some? ==> r.value != [] && r.value == Reports(info, fs)
  {
    var rs := Reports(info, fs);
    if rs == [] then None else Some(rs)
  }

  /** Reports come in sequence order: those of `a + b` are those of `a`, then of `b`. */
  lemma {:induction false} ReportsAppend(info: Registry, a: seq<Frame>, b: seq<Frame>)
    ensures Reports(info, a + b) == Reports(info, a) + Reports(info, b)
  {
    if a == [] {
      assert a + b == b;
    } else {
      assert (a + b)[0] == a[0] && (a + b)[1..] == a[1..] + b;
      ReportsAppend(info, a[1..], b);
    }
  }

  /** Appending one frame adds its report, if any, at the end. */
  lemma ReportsSnoc(info: Registry, fs: seq<Frame>, f: Frame)
    ensures Reports(info, fs + [f]) ==
            Reports(info, fs) + (if ReportOf(info, f).Some? then [ReportOf(info, f).value] else [])
  {
    ReportsAppend(info, fs, [f]);
    assert [f][1..] == [];
  }

  /** Appending frames to a valid tag: an unknown identifier is reported alone, a
      known one with an undeclared key together with that key, in the order added. */
  lemma InvalidFramesAfterAppends(info: Registry, fs: seq<Frame>)
    requires InvalidFrames(info, fs) == None
    requires "TITS" !in info.byId
    requires "TALB" in info.byId && "invalid" !in info.Declared("TALB")
    requires "APIC" in info.byId && "text" !in info.Declared("APIC")
    ensures var t1 := fs + [Frame("TITS", [])];
            var t2 := t1 + [Frame("TALB", [("invalid", Str("text"))])];
            var t3 := t2 + [Frame("APIC", [("text", Str("invalid"))])];
      InvalidFrames(info, t1) == Some([Report("TITS", [])]) &&
      InvalidFrames(info, t2) == Some([Report("TITS", []), Report("TALB", ["invalid"])]) &&
      InvalidFrames(info, t3) == Some([Report("TITS", []), Report("TALB", ["invalid"]), Report("APIC", ["text"])])
  {
    var f1 := Frame("TITS", []);
    var f2 := Frame("TALB", [("invalid", Str("text"))]);
    var f3 := Frame("APIC", [("text", Str("invalid"))]);
    var r1, r2, r3 := Report("TITS", []), Report("TALB", ["invalid"]), Report("APIC", ["text"]);
    assert Reports(info, fs + [f1]) == [r1] by {
      assert Reports(info, fs) == [];
      ReportsSnoc(info, fs, f1);
    }
    assert Reports(info, fs + [f1] + [f2]) == [r1, r2] by {
      assert ReportOf(info, f2) == Some(r2) by {
        assert Keys(f2.fields) == ["invalid"];
        assert Undeclared(["invalid"], info.Declared("TALB")) == ["invalid"];
      }
      ReportsSnoc(info, fs + [f1], f2);
    }
    assert Reports(info, fs + [f1] + [f2] + [f3]) == [r1, r2, r3] by {
      assert ReportOf(info, f3) == Some(r3) by {
        assert Keys(f3.fields) == ["text"];
        assert Undeclared(["text"], info.Declared("APIC")) == ["text"];
      }
      ReportsSnoc(info, fs + [f1] + [f2], f3);
    }
  }

  // ------------------------------------------------------------ loading

  /** The frames `read_frames` appends: each record decoded, in store iteration order. */
  function Loaded(info: Registry, raws: seq<RawFrame>): (r: seq<Frame>)
    requires forall i :: 0 <= i < |raws| ==> raws[i].code in info.byNum
    ensures |r| == |raws|
  {
    seq(|raws|, i requires 0 <= i < |raws| => Decoded(info, raws[i]))
  }

  /** With a consistent registry, a freshly loaded tag has no invalid frames: every
      decoded identifier is known and every decoded key is declared for it. */
  lemma LoadedFramesAreValid(info: Registry, raws: seq<RawFrame>)
    requires info.Consistent()
    requires forall i :: 0 <= i < |raws| ==> raws[i].code in info.byNum
    ensures InvalidFrames(info, Loaded(info, raws)) == None
  {
    var fs := Loaded(info, raws);
    forall i | 0 <= i < |fs| ensures ValidFrame(info, fs[i]) {
      var entry := info.byNum[raws[i].code];
      assert fs[i].id == entry.id && info.Declared(entry.id) == entry.fields;
      forall k | k in Keys(fs[i].fields) ensures k in entry.fields {
        DecodeFieldsGet([], entry.fields, raws[i].fields, k);
      }
    }
  }

  // ------------------------------------------------------------ update!

  /** The frames `update!` keeps: those whose identifier the registry resolves. */
  function Survivors(info: Registry, fs: seq<Frame>): seq<Frame> {
    Filter(fs, (f: Frame) => f.id in info.byId)
  }

  /** `update!` keeps every resolved frame as often as it occurs, drops every other
      one, and keeps the order of what it keeps. */
  lemma SurvivorsAreResolved(info: Registry, fs: seq<Frame>)
    ensures forall f: Frame :: multiset(Survivors(info, fs))[f] ==
              if f.id in info.byId then multiset(fs)[f] else 0
    ensures Subsequence(Survivors(info, fs), fs)
  {
    FilterIsSubsequence(fs, (f: Frame) => f.id in info.byId);
  }

  /** With a consistent registry, `update!` drops none of the frames a load produced. */
  lemma LoadedFramesSurviveUpdate(info: Registry, raws: seq<RawFrame>)
    requires info.Consistent()
    requires forall i :: 0 <= i < |raws| ==> raws[i].code in info.byNum
    ensures Survivors(info, Loaded(info, raws)) == Loaded(info, raws)
  {
    FilterAll(Loaded(info, raws), (f: Frame) => f.id in info.byId);
  }

  /** The outcome of the `delete_if` pass of `update!`: the frames left in the tag,
      the `add_frame` calls made, and the fault Frame.write raised, if any. */
  datatype Replay = Replay(kept: seq<Frame>, added: seq<Call>, fault: Option<Fault>)

  /** The numeric code of a known frame, and the fields a fresh record for it offers. */
  function CodeOf(info: Registry, f: Frame): int
    requires f.id in info.byId
  {
    info.byId[f.id].num
  }

  function RecordShape(info: Registry, layout: Layout, f: Frame): map<FieldId, FieldType>
    requires f.id in info.byId
  {
    ShapeOf(layout, CodeOf(info, f))
  }

  /** What Frame.write does to a fresh record for a known frame. */
  function Outcome(info: Registry, layout: Layout, f: Frame): Encoding
    requires f.id in info.byId
  {
    Encode(info, f, RecordShape(info, layout, f))
  }

  /** Frames already decided, then the rest of the pass. */
  function Prepend(kept: seq<Frame>, added: seq<Call>, rest: Replay): Replay {
    Replay(kept + rest.kept, added + rest.added, rest.fault)
  }

  /** The `delete_if` pass of `update!` over `fs`: an unknown frame is deleted; a known
      one is written into a fresh record and added to the store and stays. When
      Frame.write raises, the pass stops and the frame at hand and all after it stay,
      as Array#delete_if leaves an array whose block raised. */
  function ReplayFrames(info: Registry, layout: Layout, fs: seq<Frame>): Replay
    decreases |fs|
  {
    if fs == [] then Replay([], [], None)
    else if fs[0].id !in info.byId then ReplayFrames(info, layout, fs[1..])
    else if Outcome(info, layout, fs[0]).fault.Some? then Replay(fs, [], Outcome(info, layout, fs[0]).fault)
    else Prepend([fs[0]], [FrameAdded(CodeOf(info, fs[0]), Outcome(info, layout, fs[0]).calls)],
                 ReplayFrames(info, layout, fs[1..]))
  }

  /** One step of the pass, at position `i`. */
  lemma ReplayStep(info: Registry, layout: Layout, fs: seq<Frame>, i: nat)
    requires i < |fs|
    ensures ReplayFrames(info, layout, fs[i..]) ==
      if fs[i].id !in info.byId then ReplayFrames(info, layout, fs[i + 1..])
      else if Outcome(info, layout, fs[i]).fault.Some? then Replay(fs[i..], [], Outcome(info, layout, fs[i]).fault)
      else Prepend([fs[i]], [FrameAdded(CodeOf(info, fs[i]), Outcome(info, layout, fs[i]).calls)],
                   ReplayFrames(info, layout, fs[i + 1..]))
  {
    assert fs[i..][0] == fs[i] && fs[i..][1..] == fs[i + 1..];
  }

  /** Frame.write does not raise on `f`, or `update!` deletes `f` before writing it. */
  predicate Clean(info: Registry, layout: Layout, f: Frame) {
    f.id in info.byId ==> Outcome(info, layout, f).fault.None?
  }

  predicate WritesCleanly(info: Registry, layout: Layout, fs: seq<Frame>) {
    forall i :: 0 <= i < |fs| ==> Clean(info, layout, fs[i])
  }

  lemma WritesCleanlyCons(info: Registry, layout: Layout, fs: seq<Frame>)
    requires fs != []
    ensures WritesCleanly(info, layout, fs) <==>
            Clean(info, layout, fs[0]) && WritesCleanly(info, layout, fs[1..])
  {
    assert forall i :: 0 < i < |fs| ==> fs[1..][i - 1] == fs[i];
  }

  lemma SurvivorsCons(info: Registry, fs: seq<Frame>)
    requires fs != []
    ensures Survivors(info, fs) ==
            (if fs[0].id in info.byId then [fs[0]] else []) + Survivors(info, fs[1..])
  {
  }

  /** The pass raises exactly when Frame.write raises on some known frame. */
  lemma {:induction false} ReplayFaultFree(info: Registry, layout: Layout, fs: seq<Frame>)
    ensures ReplayFrames(info, layout, fs).fault.None? <==> WritesCleanly(info, layout, fs)
    decreases |fs|
  {
    if fs != [] {
      ReplayFaultFree(info, layout, fs[1..]);
      WritesCleanlyCons(info, layout, fs);
    }
  }

  /** When no write raises, the pass keeps exactly the frames the registry resolves,
      in their order, and adds one record per kept frame, in the same order, holding
      what Frame.write put into it. */
  lemma {:induction false} ReplayKeepsSurvivors(info: Registry, layout: Layout, fs: seq<Frame>)
    requires WritesCleanly(info, layout, fs)
    ensures var rp := ReplayFrames(info, layout, fs);
      rp.kept == Survivors(info, fs) && |rp.added| == |rp.kept| &&
      forall i :: 0 <= i < |rp.kept| ==>
        rp.added[i] == FrameAdded(CodeOf(info, rp.kept[i]), Outcome(info, layout, rp.kept[i]).calls)
    decreases |fs|
  {
    if fs != [] {
      WritesCleanlyCons(info, layout, fs);
      ReplayKeepsSurvivors(info, layout, fs[1..]);
      SurvivorsCons(info, fs);
      var rest := ReplayFrames(info, layout, fs[1..]);
      var rp := ReplayFrames(info, layout, fs);
      if fs[0].id in info.byId {
        assert rp == Prepend([fs[0]], [FrameAdded(CodeOf(info, fs[0]), Outcome(info, layout, fs[0]).calls)], rest);
        forall i | 0 <= i < |rp.kept|
          ensures rp.added[i] == FrameAdded(CodeOf(info, rp.kept[i]), Outcome(info, layout, rp.kept[i]).calls)
        {
          if i > 0 {
            assert rp.kept[i] == rest.kept[i - 1] && rp.added[i] == rest.added[i - 1];
          }
        }
      }
    }
  }

  /** `update!`'s pass when no write raises: it raises exactly when some write would,
      and otherwise keeps the resolved frames and adds one record for each. */
  lemma {:induction false} UpdateKeepsResolved(info: Registry, layout: Layout, fs: seq<Frame>)
    ensures var rp := ReplayFrames(info, layout, fs);
      (rp.fault.None? <==> WritesCleanly(info, layout, fs)) &&
      (rp.fault.None? ==>
        rp.kept == Survivors(info, fs) && |rp.added| == |rp.kept| &&
        forall i :: 0 <= i < |rp.kept| ==>
          rp.added[i] == FrameAdded(CodeOf(info, rp.kept[i]), Outcome(info, layout, rp.kept[i]).calls))
  {
    ReplayFaultFree(info, layout, fs);
    if WritesCleanly(info, layout, fs) {
      ReplayKeepsSurvivors(info, layout, fs);
    }
  }

  /** `added` holds one `add_frame` record per frame of `kept`, in order: that frame's
      code and the writes Frame.write made into its record. */
  predicate RecordsOf(info: Registry, layout: Layout, kept: seq<Frame>, added: seq<Call>)
    requires forall i :: 0 <= i < |kept| ==> kept[i].id in info.byId
  {
    |added| == |kept| &&
    forall i :: 0 <= i < |kept| ==>
      added[i] == FrameAdded(CodeOf(info, kept[i]), Outcome(info, layout, kept[i]).calls)
  }

  /** The pass stopped at `fs[j]`: Frame.write raised `rp.fault` on it, every frame
      before it was written or deleted, the resolved ones among them each got their
      record added, and it and the frames after it were left. */
  predicate StopsAt(info: Registry, layout: Layout, fs: seq<Frame>, rp: Replay, j: int) {
    0 <= j < |fs| && !Clean(info, layout, fs[j]) &&
    rp.fault == Outcome(info, layout, fs[j]).fault &&
    WritesCleanly(info, layout, fs[..j]) &&
    rp.kept == Survivors(info, fs[..j]) + fs[j..] &&
    RecordsOf(info, layout, Survivors(info, fs[..j]), rp.added)
  }

  /** What one clean step of the pass keeps of `f`, and the records it adds for it. */
  function KeptOf(info: Registry, f: Frame): seq<Frame> {
    if f.id in info.byId then [f] else []
  }

  function AddedOf(info: Registry, layout: Layout, f: Frame): seq<Call> {
    if f.id in info.byId then [FrameAdded(CodeOf(info, f), Outcome(info, layout, f).calls)] else []
  }

  /** The first step of a pass over a frame that writes cleanly. */
  lemma ReplayCons(info: Registry, layout: Layout, fs: seq<Frame>)
    requires fs != [] && Clean(info, layout, fs[0])
    ensures ReplayFrames(info, layout, fs) ==
            Prepend(KeptOf(info, fs[0]), AddedOf(info, layout, fs[0]), ReplayFrames(info, layout, fs[1..]))
  {
  }

  /** Records for `head` followed by records for `tail` are records for `head + tail`. */
  lemma RecordsOfAppend(info: Registry, layout: Layout, head: seq<Frame>, a: seq<Call>, tail: seq<Frame>, b: seq<Call>)
    requires forall i :: 0 <= i < |head| ==> head[i].id in info.byId
    requires forall i :: 0 <= i < |tail| ==> tail[i].id in info.byId
    requires RecordsOf(info, layout, head, a) && RecordsOf(info, layout, tail, b)
    ensures forall i :: 0 <= i < |head + tail| ==> (head + tail)[i].id in info.byId
    ensures RecordsOf(info, layout, head + tail, a + b)
  {
    forall i | 0 <= i < |head + tail|
      ensures (a + b)[i] == FrameAdded(CodeOf(info, (head + tail)[i]), Outcome(info, layout, (head + tail)[i]).calls)
    {
      if i >= |head| {
        assert (head + tail)[i] == tail[i - |head|] && (a + b)[i] == b[i - |head|];
      }
    }
  }

  /** Growing the clean prefix of the tail by the head frame. */
  lemma PrefixCons(info: Registry, layout: Layout, fs: seq<Frame>, j: int)
    requires 0 <= j < |fs| - 1 && Clean(info, layout, fs[0])
    requires WritesCleanly(info, layout, fs[1..][..j])
    ensures WritesCleanly(info, layout, fs[..j + 1])
    ensures Survivors(info, fs[..j + 1]) ==
            (if fs[0].id in info.byId then [fs[0]] else []) + Survivors(info, fs[1..][..j])
  {
    var pre := fs[..j + 1];
    assert pre[1..] == fs[1..][..j] && pre[0] == fs[0];
    WritesCleanlyCons(info, layout, pre);
    SurvivorsCons(info, pre);
  }

  /** A stop found in the tail is a stop of the whole pass, one position later. */
  lemma StopsAtCons(info: Registry, layout: Layout, fs: seq<Frame>, rest: Replay, j: int)
    requires fs != [] && Clean(info, layout, fs[0])
    requires StopsAt(info, layout, fs[1..], rest, j)
    ensures StopsAt(info, layout, fs, Prepend(KeptOf(info, fs[0]), AddedOf(info, layout, fs[0]), rest), j + 1)
  {
    var head, records := KeptOf(info, fs[0]), AddedOf(info, layout, fs[0]);
    var rp := Prepend(head, records, rest);
    var pre, earlier, later := fs[..j + 1], Survivors(info, fs[1..][..j]), fs[j + 1..];
    assert fs[1..][j] == fs[j + 1];
    assert WritesCleanly(info, layout, pre) && Survivors(info, pre) == head + earlier by {
      PrefixCons(info, layout, fs, j);
    }
    assert rp.kept == Survivors(info, pre) + later by {
      assert later == fs[1..][j..];
      assert head + (earlier + later) == (head + earlier) + later;
    }
    assert RecordsOf(info, layout, Survivors(info, pre), rp.added) by {
      RecordsOfAppend(info, layout, head, records, earlier, rest.added);
    }
  }

  /** When Frame.write raises, `update!` has added the records of the resolved frames
      before the offending one, in order, deleted the unresolved ones before it, and
      left it and the rest. */
  lemma {:induction false} UpdateStopsAtFault(info: Registry, layout: Layout, fs: seq<Frame>)
    requires ReplayFrames(info, layout, fs).fault.Some?
    ensures exists j :: StopsAt(info, layout, fs, ReplayFrames(info, layout, fs), j)
    decreases |fs|
  {
    if !Clean(info, layout, fs[0]) {
      assert fs[..0] == [] && fs[0..] == fs;
      assert StopsAt(info, layout, fs, ReplayFrames(info, layout, fs), 0);
    } else {
      ReplayCons(info, layout, fs);
      UpdateStopsAtFault(info, layout, fs[1..]);
      var j :| StopsAt(info, layout, fs[1..], ReplayFrames(info, layout, fs[1..]), j);
      StopsAtCons(info, layout, fs, ReplayFrames(info, layout, fs[1..]), j);
    }
  }

  // ------------------------------------------------------------ the tag object

  /** What `update!` returns: the written tag-type bitmask or nil, or the fault that
      Frame.write raised. */
  datatype UpdateResult = Written(tags: Option<int>) | Raised(fault: Fault)

  /** ID3Lib::Tag: the frame sequence of one file, its padding preference, and the
      store handle it owns. `info` and `layout` are the static frame tables. */
  class Tag {
    const info: Registry
    const layout: Layout
    const filename: string
    const readType: int
    const store: NativeTag
    var padding: bool
    var frames: seq<Frame>

    /** `Tag.new(filename, read_type)`: links a new store handle to the file and loads
        its frames; `readType` is `None` when the caller omits `read_type`, which then
        defaults to `V_ALL`; `linked` is what that store yields for the file, `stripReply` and
        `updateReply` what it will report. */
    constructor (info: Registry, layout: Layout, filename: string, readType: Option<int>,
                 linked: seq<RawFrame>, stripReply: int, updateReply: int)
      requires forall i :: 0 <= i < |linked| ==> linked[i].code in info.byNum
      ensures this.info == info && this.layout == layout
      ensures this.filename == filename && this.readType == readType.GetOr(VAll) && padding
      ensures fresh(store) && store.linked == linked
      ensures store.stripReply == stripReply && store.updateReply == updateReply
      ensures store.log == [Linked(filename, readType.GetOr(VAll))]
      ensures frames == Loaded(info, linked)
    {
      this.info := info;
      this.layout := layout;
      this.filename := filename;
      this.readType := readType.GetOr(VAll);
      padding := true;
      store := new NativeTag(linked, stripReply, updateReply);
      frames := [];
      new;
      store.Link(filename, this.readType);
      ReadFrames();
    }

    /** `read_frames`: appends every record the store yields, decoded, in order. */
    method ReadFrames()
      requires forall i :: 0 <= i < |store.linked| ==> store.linked[i].code in info.byNum
      modifies this`frames
      ensures frames == old(frames) + Loaded(info, store.linked)
    {
      var i := 0;
      while i < |store.linked|
        invariant 0 <= i <= |store.linked|
        invariant frames == old(frames) + Loaded(info, store.linked)[..i]
      {
        var f := Read(info, store.linked[i]);
        frames := frames + [f];
        i := i + 1;
      }
    }

    /** `remove_frame(id)`. */
    method RemoveFrame(id: FrameId)
      modifies this`frames
      ensures frames == Remove(old(frames), id)
    {
      frames := Remove(frames, id);
    }

    /** `set_frame_text(id, text)`: removes the frames carrying `id`, then appends one
        with the text, if there is a text. */
    method SetFrameText(id: FrameId, text: Option<string>)
      modifies this`frames
      ensures frames == SetText(old(frames), id, text)
    {
      RemoveFrame(id);
      if text.Some? {
        frames := frames + [TextFrame(id, text.value)];
      }
    }

    /** The `delete_if` pass of `update!`: writes each resolved frame into a fresh
        record for its code and adds that record to the store, deleting unresolved
        frames and stopping at the first frame Frame.write raises on. Returns the
        frames the pass leaves and that fault, if any. */
    method AddFrames() returns (kept: seq<Frame>, fault: Option<Fault>)
      modifies store
      ensures var rp := ReplayFrames(info, layout, frames);
        kept == rp.kept && fault == rp.fault && store.log == old(store.log) + rp.added
    {
      ghost var whole := ReplayFrames(info, layout, frames);
      ghost var added: seq<Call> := [];
      kept := [];
      var i := 0;
      while i < |frames|
        invariant 0 <= i <= |frames|
        invariant store.log == old(store.log) + added
        invariant whole == Prepend(kept, added, ReplayFrames(info, layout, frames[i..]))
      {
        var f := frames[i];
        ReplayStep(info, layout, frames, i);
        if f.id in info.byId {
          var code := info.byId[f.id].num;
          var rec := new NativeFrame(code, ShapeOf(layout, code));
          fault := Write(info, f, rec);
          assert rec.writes == Outcome(info, layout, f).calls && fault == Outcome(info, layout, f).fault;
          if fault.Some? {
            kept := kept + frames[i..];
            return;
          }
          store.AddFrame(rec);
          kept := kept + [f];
          added := added + [FrameAdded(code, rec.writes)];
        }
        i := i + 1;
      }
      assert frames[i..] == [];
      fault := None;
    }

    /** `update!(write_type)`; `None` stands for the default, the read type. The store
        is stripped, cleared and relinked, the frames are replayed into it and, unless
        Frame.write raised, the padding is set and the tag written; the result is the
        tag types written, or nil when there were none. */
    method Update(writeType: Option<int>) returns (result: UpdateResult)
      modifies this`frames, store
      ensures var wt := writeType.GetOr(readType);
              var rp := ReplayFrames(info, layout, old(frames));
        frames == rp.kept &&
        store.log == old(store.log) + [Stripped(wt), Cleared, Linked(filename, wt)] + rp.added +
                     (if rp.fault.None? then [PaddingSet(padding), Updated(wt)] else []) &&
        result == if rp.fault.Some? then Raised(rp.fault.value)
                  else Written(if store.updateReply == 0 then None else Some(store.updateReply))
    {
      var wt := writeType.GetOr(readType);
      var _ := store.Strip(wt);
      store.Clear();
      store.Link(filename, wt);
      var kept, fault := AddFrames();
      frames := kept;
      if fault.Some? {
        return Raised(fault.value);
      }
      store.SetPadding(padding);
      var tags := store.Update(wt);
      result := Written(if tags == 0 then None else Some(tags));
    }
  }
}
