/** The records of the registry and the constants they carry. */
module Regions {
  /** The contents of a C string: everything before its terminating NUL. */
  type CString = s: string | '\0' !in s

  /** `struct md_region`. */
  datatype Region = Region(name: CString, id: nat, virt: nat, phys: nat, size: nat)

  /** `struct md_ss_region`, the record the bootloader reads. */
  datatype SsRegion = SsRegion(name: CString, seqNum: nat, valid: nat, base: nat, size: nat)

  const ZERO_REGION := Region("", 0, 0, 0, 0)
  const ZERO_SS := SsRegion("", 0, 0, 0, 0)

  const MAX_NAME_LENGTH: nat := 12
  const MAX_REGION_NAME_LENGTH: nat := 16
  /** The characters 'V', 'A', 'L', 'I' packed big end first. */
  const MD_REGION_VALID: nat := 0x56414C49
  const INT_MAX: int := 0x7fff_ffff

  /** MAX_NUM_ENTRIES, kept symbolic. Sixteen user entries are enough for the three fixed
      section names to leave the string table room for every later name; the shipped
      configuration has 201. */
  type Capacity = n: nat | 17 <= n witness 201

  /** What `validate_region` accepts. */
  predicate ValidRegion(r: Region) {
    |r.name| <= MAX_NAME_LENGTH && r.virt != 0 && r.size % 4 == 0
  }

  predicate AllValid(rs: seq<Region>) {
    forall i | 0 <= i < |rs| :: ValidRegion(rs[i])
  }

  /** `r` with the addresses of `q`: all that an update ever changes. */
  function Readdress(r: Region, q: Region): Region {
    r.(virt := q.virt, phys := q.phys)
  }

  predicate DistinctNames(rs: seq<Region>) {
    forall i, j | 0 <= i < j < |rs| :: rs[i].name != rs[j].name
  }
}
