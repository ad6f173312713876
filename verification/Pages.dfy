/** Attribute pages and their ranges (osd-defs.h). */
module Pages {
  import opened Bytes

  const USEROBJECT_PG: u32 := 0x0
  const PARTITION_PG: u32 := 0x3000_0000
  const COLLECTION_PG: u32 := 0x6000_0000
  const ROOT_PG: u32 := 0x9000_0000
  const ANY_PG: u32 := 0xF000_0000

  const STD_PG_UB := 0x7F
  const RSRV_PG_LB := 0x80
  const RSRV_PG_UB := 0x7FFF
  const LUN_PG_LB := 0x10000
  const LUN_PG_UB := 0x1FFF_FFFF
  const VEND_PG_UB := 0x2FFF_FFFF

  const USER_INFO_PG: u32 := 0x1
  const USER_COLL_PG: u32 := 0x4
  const ROOT_INFO_PG: u32 := 0x9000_0001

  const UIAP_USERNAME := 0x9
  const UIAP_LOGICAL_LEN := 0x82
  const RIAP_OSD_SYSTEM_ID := 0x3
  const RIAP_OSD_NAME := 0x9

  const ATTRNUM_INFO := 0x0
  const ATTRNUM_UNMODIFIABLE := 0xFFFF_FFFF
  const ATTR_PAGE_ID_LEN := 40
  const ATTR_LEN_UB := 0xFFFE

  /** The pages whose attributes are set in the attr table; the others have code of their own. */
  type TablePage = p: u32 | p != USER_INFO_PG && p != USER_COLL_PG && p != ROOT_INFO_PG

  /** An attribute that names its page holds at most 40 bytes, one of them zero. */
  predicate IsName(v: seq<byte>) { |v| <= ATTR_PAGE_ID_LEN && exists i :: 0 <= i < |v| && v[i] == 0 }
}
