// The register table of casperfpga/src/core.rs (`Register`, `RegisterMap`), shared by the
// transports and the yellow blocks; the older crate's `Device`/`DeviceMap` in src/core.rs is
// the same pair of numbers.
module Core {
  import opened Bytes

  /** A register's byte address in FPGA memory and its length in bytes. */
  datatype Register = Register(addr: nat, length: nat)

  /** The name of each register to its location, the keys as their UTF-8 bytes. */
  type RegisterMap = map<bytes, Register>
}
