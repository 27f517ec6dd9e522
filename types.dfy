/** The records the pipeline passes between its stages
    (`packages/core/src/types.ts`). */
module Types {

  /** A discovered Markdown file. `relativePath` is relative to the input
      directory, with `/` as separator; timestamps are whole milliseconds. */
  datatype FileEntry = FileEntry(absolutePath: string, relativePath: string, birthtimeMs: int, mtimeMs: int)

  datatype OrderStrategy = Filename | Created | Index

  /** The parts of `index.json` that ordering reads. An absent `exclude`
      list is the empty list. */
  datatype IndexConfig = IndexConfig(order: seq<string>, exclude: seq<string>)
}
