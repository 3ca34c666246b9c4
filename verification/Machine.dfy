// Machine-level vocabulary shared by every component: fixed-width integers, the byte order
// of the host, and an optional value.

module Machine {

  type byte = b: int | 0 <= b < 0x100
  type uint16 = w: int | 0 <= w < 0x1_0000
  type uint32 = w: int | 0 <= w < 0x1_0000_0000

  datatype Option<+T> = None | Some(value: T)

  datatype HostOrder = LittleEndian | BigEndian
}
