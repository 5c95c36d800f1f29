/** The frame metadata registry (ID3Lib::Info), kept abstract: which frame
    identifiers exist, their numeric codes and their declared field lists. */
module Info {
  import opened Frames

  /** How a native field stores its value. */
  datatype FieldType = Integer | Binary | Text

  /** One registry entry: numeric code, identifier and declared fields, in order. */
  datatype FrameInfo = FrameInfo(num: int, id: FrameId, fields: seq<FieldId>)

  /** `byId` answers Info.frame(id) (nil when the identifier is absent) and `byNum`
      answers Info.frame_num(num). */
  datatype Registry = Registry(byId: map<FrameId, FrameInfo>, byNum: map<int, FrameInfo>) {

    /** Both lookups describe one table: every identifier has exactly one code and back. */
    ghost predicate Consistent() {
      (forall id :: id in byId ==> byId[id].id == id && byId[id].num in byNum && byNum[byId[id].num] == byId[id]) &&
      (forall num :: num in byNum ==> byNum[num].num == num && byNum[num].id in byId && byId[byNum[num].id] == byNum[num])
    }

    /** The fields declared for a known frame identifier. */
    function Declared(id: FrameId): seq<FieldId>
      requires id in byId
    {
      byId[id].fields
    }
  }
}
