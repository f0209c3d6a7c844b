/** Transactions, the entries of the log. */
module Transactions {
  datatype TxKind = WriteTx | DeleteTx | UnknownTx(code: int)

  datatype InodeType = FileType | FolderType

  /** Times are opaque values. */
  datatype Tx = Tx(
    kind: TxKind, path: string, inode: InodeType,
    ids: seq<string>, sums: seq<string>, size: nat, mtim: int, ctim: int)

  function CreateDeleteTx(path: string): Tx {
    Tx(DeleteTx, path, FileType, [], [], 0, 0, 0)
  }

  function CreateFolderTx(path: string): Tx {
    Tx(WriteTx, path, FolderType, [], [], 0, 0, 0)
  }
}
