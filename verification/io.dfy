/** What the pipeline can raise, and the observable I/O steps it takes. */
module Io {

  /** The exceptions that escape `get_dict`. */
  datatype Error =
    | UnknownRegion(region: string)                  // KeyError from `self.regions[region]`
    | MissingMember(archive: nat, member: string)    // KeyError from `ZipFile.open` of an absent member
    | UnreadableCache(file: string)                  // a cache file that exists but cannot be loaded
    | MissingColumn(region: string, column: string)  // KeyError on a loaded column set without that column

  /** One I/O step, in the order the pipeline performs them. */
  datatype Effect =
    | OpenCache(file: string)                    // `gzip.open(cache_filename, "rb")`, hit or miss
    | Download                                   // `self.download_data()`
    | OpenMember(archive: nat, member: string)   // `zf.open(member)` on the archive at that glob position
    | WriteCache(file: string)                   // `gzip.open(cache_filename, "wb")` and `pickle.dump`
}
