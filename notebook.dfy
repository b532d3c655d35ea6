/** Values shared by the notebook components: the cells of a notebook document. */
module Notebook {

  datatype Option<T> = None | Some(value: T)

  /** The two kinds of notebook cell of the host editor's API. */
  datatype CellKind = Markup | Code

  /** One cell of a notebook: its kind, its text and its language identifier. */
  datatype Cell = Cell(kind: CellKind, value: string, languageId: string)
}
