/** Tar entries: a header and the bytes that follow it. */
module Headers {
  import opened Trees

  datatype TypeFlag =
    | TypeReg | TypeLink | TypeSymlink | TypeChar | TypeBlock | TypeDir | TypeFifo
    | TypeXGlobalHeader | TypeOther

  /** `caps` is the SCHILY.xattr.security.capability record, "" when absent. */
  datatype Header = Header(
    name: string, typeflag: TypeFlag, linkname: string, perm: Perm, uid: int, gid: int,
    modTime: Time, devmajor: int, devminor: int, caps: string, data: string)

  predicate DeviceInRange(h: Header) {
    0 <= h.devmajor <= MAX_UINT32 && 0 <= h.devminor <= MAX_UINT32
  }
}
