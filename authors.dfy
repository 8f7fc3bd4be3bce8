/** Authors as the external author directory lists them. This system only reads them. */
module Authors {

  /** An author record owned by the directory; `name` is the key books refer to. */
  datatype Author = Author(id: int, name: string)
}
