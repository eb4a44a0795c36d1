/** Types shared by the models of the spooler's components. */
module Common {

  /** The conventional optional value; the C code uses a slot number of -1 or a null pointer. */
  datatype Option<+T> = None | Some(value: T)

  /** An `unsigned char`. */
  type Byte = x: int | 0 <= x < 256
}
