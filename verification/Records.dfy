/** Records and their addresses. */
module Records {
  import opened Bytes

  type Rec = seq<Byte>

  datatype RID = RID(pageNo: int, slotNo: int)

  const NULLRID := RID(-1, -1)
}
