/** The platform facts the tools consult: whether the host is a Unix (only there
    is `st_blksize` available) and the largest `usize`. */
module Platform {
  import opened Bytes

  datatype Host = Host(unix: bool, usizeMax: nat)

  /** The read-buffer size for a file whose `st_blksize` is `blksize`: that value
      when the platform reports it and it converts to `usize`, else the fixed
      default. A positive `blksize` always gives a positive buffer. */
  function PreferredBlockSize(host: Host, blksize: nat): (r: nat)
    ensures r == blksize || r == DEFAULT_BLOCK_SIZE
    ensures r == blksize <== host.unix && blksize <= host.usizeMax
    ensures r == DEFAULT_BLOCK_SIZE <== !host.unix || blksize > host.usizeMax
    ensures blksize > 0 ==> r > 0
  {
    if host.unix && blksize <= host.usizeMax then blksize else DEFAULT_BLOCK_SIZE
  }
}
