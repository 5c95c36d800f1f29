/** The structured side of a tag: a frame is its identifier plus the other
    entries of the frame hash, in the hash's insertion order. */
module Frames {
  import opened Wrappers

  newtype byte = x: int | 0 <= x < 256

  /** Frame and field identifiers are Ruby symbols; the model keeps their names. */
  type FrameId = string
  type FieldId = string

  /** The hash key that holds a frame's identifier. */
  const IdKey: FieldId := "id"
  /** The field that selects ASCII (0) or Unicode (> 0) text. */
  const TextEnc: FieldId := "textenc"
  const TextField: FieldId := "text"
  const Description: FieldId := "description"
  const Filename: FieldId := "filename"

  /** Field values: integers, raw bytes, or text (kept opaque). */
  datatype Value = Int(n: int) | Bin(data: seq<byte>) | Str(s: string)

  /** The entries of a frame hash other than the identifier, in insertion order. */
  type Entries = seq<(FieldId, Value)>

  datatype Frame = Frame(id: FrameId, fields: Entries)

  /** The keys of `es`, in order (Hash#keys). */
  function Keys(es: Entries): (ks: seq<FieldId>)
    ensures |ks| == |es|
    ensures forall i :: 0 <= i < |es| ==> ks[i] == es[i].0
  {
    seq(|es|, i requires 0 <= i < |es| => es[i].0)
  }

  /** No identifier occurs twice in `s`. */
  predicate NoDuplicates(s: seq<FieldId>) {
    forall i, j :: 0 <= i < j < |s| ==> s[i] != s[j]
  }

  /** No key occurs twice, as in every Ruby hash. */
  predicate DistinctKeys(es: Entries) {
    NoDuplicates(Keys(es))
  }

  /** Hash lookup `h[k]`: the value stored under `k`, or nil. */
  function Get(es: Entries, k: FieldId): (r: Option<Value>)
    ensures r.None? <==> k !in Keys(es)
    ensures r.Some? ==> (k, r.value) in es
  {
    if es == [] then None
    else if es[0].0 == k then Some(es[0].1)
    else Get(es[1..], k)
  }

  /** Hash store `h[k] = v`: an existing key keeps its place, a new key goes last. */
  function Put(es: Entries, k: FieldId, v: Value): (r: Entries)
    ensures |r| == if k in Keys(es) then |es| else |es| + 1
  {
    if es == [] then [(k, v)]
    else if es[0].0 == k then [(k, v)] + es[1..]
    else [es[0]] + Put(es[1..], k, v)
  }

  /** After `h[k] = v`, `h[k]` is `v` and every other key reads as before. */
  lemma {:induction false} GetPut(es: Entries, k: FieldId, v: Value, k': FieldId)
    ensures Get(Put(es, k, v), k') == if k' == k then Some(v) else Get(es, k')
  {
    if es != [] && es[0].0 != k {
      GetPut(es[1..], k, v, k');
    }
  }

  /** The keys of an entry followed by more entries. */
  lemma KeysCons(e: (FieldId, Value), es: Entries)
    ensures Keys([e] + es) == [e.0] + Keys(es)
  {
  }

  /** `h[k] = v` keeps the key order and appends a new key at the end. */
  lemma {:induction false} KeysPut(es: Entries, k: FieldId, v: Value)
    ensures Keys(Put(es, k, v)) == if k in Keys(es) then Keys(es) else Keys(es) + [k]
  {
    if es != [] {
      var head, tail := es[0].0, Keys(es[1..]);
      assert Keys(es) == [head] + tail by {
        assert es == [es[0]] + es[1..];
        KeysCons(es[0], es[1..]);
      }
      if head != k {
        var rest := Put(es[1..], k, v);
        assert Keys(Put(es, k, v)) == [head] + Keys(rest) by {
          KeysCons(es[0], rest);
        }
        KeysPut(es[1..], k, v);
        if k in tail {
          assert k in Keys(es);
        } else {
          assert k !in Keys(es);
          assert [head] + (tail + [k]) == ([head] + tail) + [k];
        }
      } else {
        KeysCons((k, v), es[1..]);
      }
    }
  }

  /** Storing into a hash keeps its keys distinct. */
  lemma PutKeepsKeysDistinct(es: Entries, k: FieldId, v: Value)
    requires DistinctKeys(es)
    ensures DistinctKeys(Put(es, k, v))
  {
    KeysPut(es, k, v);
  }
}
