/** The optional value returned by `re.search` and by `encontrar_protocolo_no_pdf`
    (a match or Python's `None`). */
module Wrappers {
  datatype Option<+T> = None | Some(value: T)
}
