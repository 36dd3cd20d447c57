/** The record every source provider lists (src/types.ts): a selectable file's
    path and its size in bytes, without its content. */
module Types {

  datatype FileInfo = FileInfo(name: string, byteLength: nat)
}
