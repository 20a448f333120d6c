/** What several parts of the system share: machine words, and the constants of param.h, fs.h and stat.h. */
module Base {

  datatype Option<T> = None | Some(value: T)

  const TWO32 := 0x1_0000_0000

  type byte = x: int | 0 <= x < 256
  type uint = x: int | 0 <= x < TWO32

  /** A file name or a path, without the NUL that ends it. */
  type Name = seq<byte>

  const LOGSIZE := 30             // blocks in a transaction, and in mkfs's log
  const MAXOPBLOCKS := 10         // blocks one operation may log

  const ROOTINO := 1
  const DIRSIZ := 14
  const DIRENT := 16              // sizeof(struct dirent): a 16-bit inum and DIRSIZ name bytes
  const T_DIR := 1
  const T_FILE := 2
}
