/** What the log asks of the buffer cache, for blocks of any kind: the disk, and over it the blocks that are
    logged and kept in the cache until they are installed. */
module BlockView {
  datatype View<B> = View(disk: seq<B>, pinned: map<nat, B>)

  /** bread: a pinned buffer if there is one, else the disk block. */
  function Seen<B>(v: View<B>, k: nat): B
    requires k < |v.disk|
  {
    if k in v.pinned then v.pinned[k] else v.disk[k]
  }

  /** bread, a change and bwrite. */
  function Written<B>(v: View<B>, k: nat, x: B): View<B>
    requires k < |v.disk|
  {
    v.(disk := v.disk[k := x])
  }

  /** bread, a change and log_write. */
  function Logged<B>(v: View<B>, k: nat, x: B): View<B> {
    v.(pinned := v.pinned[k := x])
  }

  /** bread, a change, bwrite and bunpin. */
  function Installed<B>(v: View<B>, k: nat, x: B): View<B>
    requires k < |v.disk|
  {
    View(v.disk[k := x], v.pinned - {k})
  }
}
