/**
 * The records that the two inventory listings return, already decoded from
 * their JSON form, and the outcome of running one listing.
 */
module Inventory {

  /** An optional field of a JSON record: absent, or present with a value. */
  datatype Option<+T> = None | Some(value: T)

  /** One entry of an instance's `disks` list; `source` is the URL of the disk it uses. */
  datatype AttachedDisk = AttachedDisk(source: string)

  /** A compute instance; its `disks` key may be missing from the record. */
  datatype Instance = Instance(disks: Option<seq<AttachedDisk>>)

  /**
   * A block-storage disk. `selfLink` is its identity (the URL that attached-disk
   * references point to); `diskType` is the record's optional `type` field.
   */
  datatype Disk = Disk(selfLink: string, name: string, zone: string, diskType: Option<string>)

  /**
   * The result of one `gcloud ... list --format=json` call: the decoded records,
   * or the failure of the external command (its error text).
   */
  datatype Fetch<+T> = Fetched(records: seq<T>) | ProcessFailed(error: string)

  /** The disk references of an instance; a record without `disks` has none. */
  function DiskRefs(instance: Instance): seq<AttachedDisk> {
    match instance.disks
    case None => []
    case Some(refs) => refs
  }
}
