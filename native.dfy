/** The native tag store (API::Tag, API::Frame) as an uninterpreted collaborator:
    records of typed fields on the way in, and a log of the calls made to it on
    the way out. Its byte codec, file I/O and padding policy are not modelled. */
module Native {
  import opened Frames
  import opened Info

  /** One field of a record the store has parsed: its type and its getters. The
      store's numeric type code is already translated (Info::FieldType). */
  datatype NativeField = NativeField(
    kind: FieldType,
    encoding: int,      // get_encoding
    integer: int,       // get_integer
    binary: seq<byte>,  // get_binary
    ascii: string,      // get_ascii
    unicode: string)    // get_unicode

  /** A record yielded by the store's frame iterator: its numeric frame code and
      the fields it has, by field identifier. */
  datatype RawFrame = RawFrame(code: int, fields: map<FieldId, NativeField>)

  /** The fields a fresh record of each numeric frame code offers (API::Frame.new). */
  type Layout = map<int, map<FieldId, FieldType>>

  /** The fields of a fresh record for `code`; a code the store does not know has none. */
  function ShapeOf(layout: Layout, code: int): map<FieldId, FieldType> {
    if code in layout then layout[code] else map[]
  }

  /** One setter call on a field of a record being written. */
  datatype FieldWrite =
    | SetInteger(field: FieldId, value: Value)
    | SetBinary(field: FieldId, value: Value)
    | SetEncoding(field: FieldId, enc: int)
    | SetAscii(field: FieldId, value: Value)
    | SetUnicode(field: FieldId, value: Value)

  /** A record being written (API::Frame.new(num)): it remembers the setter calls it received. */
  class NativeFrame {
    const code: int
    const shape: map<FieldId, FieldType>
    var writes: seq<FieldWrite>

    constructor (code: int, shape: map<FieldId, FieldType>)
      ensures this.code == code && this.shape == shape && writes == []
    {
      this.code := code;
      this.shape := shape;
      writes := [];
    }

    /** A setter call on one of the record's own fields. */
    method Set(w: FieldWrite)
      requires w.field in shape
      modifies this
      ensures writes == old(writes) + [w]
    {
      writes := writes + [w];
    }
  }

  /** The calls a tag object makes to the store, as the store would see them. */
  datatype Call =
    | Linked(filename: string, tagType: int)
    | Stripped(tagType: int)
    | Cleared
    | FrameAdded(code: int, writes: seq<FieldWrite>)
    | PaddingSet(on: bool)
    | Updated(tagType: int)

  /** The store handle (API::Tag). What it reads from the file and what it reports
      back are fixed when it is created; everything asked of it goes to `log`. */
  class NativeTag {
    /** The records the frame iterator yields once the store is linked to the file. */
    const linked: seq<RawFrame>
    /** What `strip` reports as stripped. */
    const stripReply: int
    /** What `update` reports as written. */
    const updateReply: int
    var log: seq<Call>

    constructor (linked: seq<RawFrame>, stripReply: int, updateReply: int)
      ensures this.linked == linked && this.stripReply == stripReply && this.updateReply == updateReply
      ensures log == []
    {
      this.linked := linked;
      this.stripReply := stripReply;
      this.updateReply := updateReply;
      log := [];
    }

    method Link(filename: string, tagType: int)
      modifies this
      ensures log == old(log) + [Linked(filename, tagType)]
    {
      log := log + [Linked(filename, tagType)];
    }

    method Strip(tagType: int) returns (stripped: int)
      modifies this
      ensures log == old(log) + [Stripped(tagType)] && stripped == stripReply
    {
      log := log + [Stripped(tagType)];
      stripped := stripReply;
    }

    method Clear()
      modifies this
      ensures log == old(log) + [Cleared]
    {
      log := log + [Cleared];
    }

    /** Stages a record for the next update, as it stands when it is added. */
    method AddFrame(f: NativeFrame)
      modifies this
      ensures log == old(log) + [FrameAdded(f.code, f.writes)]
    {
      log := log + [FrameAdded(f.code, f.writes)];
    }

    method SetPadding(on: bool)
      modifies this
      ensures log == old(log) + [PaddingSet(on)]
    {
      log := log + [PaddingSet(on)];
    }

    method Update(tagType: int) returns (tags: int)
      modifies this
      ensures log == old(log) + [Updated(tagType)] && tags == updateReply
    {
      log := log + [Updated(tagType)];
      tags := updateReply;
    }
  }
}
