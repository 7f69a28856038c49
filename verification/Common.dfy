/** Types shared by the whole model. */
module Common {

  datatype Option<+T> = None | Some(value: T)

  newtype byte = x: int | 0 <= x < 256

  type Bytes = seq<byte>

  datatype FileType = File | Directory

  datatype Path = Path(text: string)

  datatype PeerId = PeerId(n: int)
}
