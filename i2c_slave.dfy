/** The I2C register protocol of the PMIC as a byte-level state machine. A
    write is one register-address byte followed by four little-endian value
    bytes, delivered to the write callback at STOP. A read is one
    register-address byte, a repeated START for reading, and the register's
    value sent back little-endian. Both directions use 32-byte staging
    buffers and counters that STOP clears. */
module I2C {
  import opened CInt

  const BUF_SIZE: int := 32

  /** A register write delivered to the application. */
  datatype RegWrite = RegWrite(reg: uint8, value: uint32)

  function Zeros(n: nat): (z: seq<uint8>)
    ensures |z| == n && forall i :: 0 <= i < n ==> z[i] == 0
  {
    seq(n, _ => 0)
  }

  class I2CSlave {
    const rx: array<uint8>
    const tx: array<uint8>
    var rxN: uint32
    var txN: uint32
    var isRead: bool
    /** `m_read_reg`: the register read callback, if one is set. */
    var readReg: Option<uint8 -> uint32>
    /** Whether `m_write_reg` is set. */
    var hasWrite: bool
    /** The register writes delivered to the write callback, in order. */
    var writes: seq<RegWrite>
    /** The registers passed to the read callback, in order. */
    var regReads: seq<uint8>

    /** The buffers are two distinct 32-byte arrays, the counters stay
        within them, the receive buffer is zero past what was received, and
        the transmit buffer is zero past the four bytes a read stages. */
    ghost predicate Valid()
      reads this, rx, tx
    {
      && rx.Length == BUF_SIZE && tx.Length == BUF_SIZE && rx != tx
      && rxN <= BUF_SIZE && txN <= BUF_SIZE
      && (forall i :: rxN <= i < BUF_SIZE ==> rx[i] == 0)
      && (forall i :: 4 <= i < BUF_SIZE ==> tx[i] == 0)
    }

    /** The statics as the program starts: zeroed buffers and counters, and
        no callbacks. */
    constructor ()
      ensures Valid() && fresh(rx) && fresh(tx)
      ensures rxN == 0 && txN == 0 && !isRead && rx[..] == Zeros(BUF_SIZE) && tx[..] == Zeros(BUF_SIZE)
      ensures readReg == None && !hasWrite && writes == [] && regReads == []
    {
      rx := new uint8[BUF_SIZE](_ => 0);
      tx := new uint8[BUF_SIZE](_ => 0);
      rxN, txN, isRead := 0, 0, false;
      readReg, hasWrite := None, false;
      writes, regReads := [], [];
    }

    /** `setCallback`: installs the register callbacks. */
    method SetCallback(read: Option<uint8 -> uint32>, write: bool)
      modifies this`readReg, this`hasWrite
      ensures readReg == read && hasWrite == write
    {
      readReg := read;
      hasWrite := write;
    }

    /** START (or repeated START) for reading or writing: only the direction
        is recorded; counters and buffers are kept, so a register address
        written before a repeated START is still there for the read. */
    method Start(read: bool)
      modifies this`isRead
      ensures isRead == read
    {
      isRead := read;
    }

    /** A received byte is stored while there is room and dropped after. */
    method Receive(b: uint8)
      requires Valid()
      modifies this`rxN, rx
      ensures Valid()
      ensures old(rxN) < BUF_SIZE ==> rxN == old(rxN) + 1 && rx[..] == old(rx[..])[old(rxN) := b]
      ensures old(rxN) >= BUF_SIZE ==> rxN == old(rxN) && rx[..] == old(rx[..])
    {
      if rxN < BUF_SIZE as uint32 {
        rx[rxN] := b;
        rxN := rxN + 1;
      }
    }

    /** STOP: exactly five received bytes make a register write (address,
        then the value little-endian), which goes to the write callback if
        there is one; then both counters and both buffers are cleared. */
    method Stop()
      requires Valid()
      modifies this`rxN, this`txN, this`writes, rx, tx
      ensures Valid()
      ensures writes == if old(rxN) == 5 && hasWrite
        then old(writes) + [RegWrite(old(rx[0]), LE32(old(rx[1..5])))]
        else old(writes)
      ensures rxN == 0 && txN == 0 && rx[..] == Zeros(BUF_SIZE) && tx[..] == Zeros(BUF_SIZE)
    {
      if rxN == 5 {
        var value := LE32(rx[1..5]);
        if hasWrite {
          writes := writes + [RegWrite(rx[0], value)];
        }
      }
      rxN := 0;
      txN := 0;
      forall i | 0 <= i < BUF_SIZE {
        rx[i] := 0;
      }
      forall i | 0 <= i < BUF_SIZE {
        tx[i] := 0;
      }
    }

    /** A byte requested by the master: `irqHandler` presets it to 0xFF.
        The first byte of a read that follows exactly one received byte
        first asks the read callback for that register and stages the
        result little-endian in the first four transmit bytes. Then the
        next transmit byte is sent while there is one: bytes 4 to 31 of a
        read are 0x00, and 0xFF comes only after 32 bytes. */
    method Transmit() returns (b: uint8)
      requires Valid()
      modifies this`txN, this`regReads, tx
      ensures Valid()
      ensures var staged := isRead && old(txN) == 0 && rxN == 1 && readReg.Some?;
        && (staged ==> tx[..] == LE32Bytes(readReg.value(rx[0])) + old(tx[4..]) && regReads == old(regReads) + [rx[0]])
        && (!staged ==> tx[..] == old(tx[..]) && regReads == old(regReads))
      ensures old(txN) < BUF_SIZE ==> b == tx[old(txN)] && txN == old(txN) + 1
      ensures old(txN) >= BUF_SIZE ==> b == 0xFF && txN == old(txN)
      ensures 4 <= old(txN) < BUF_SIZE ==> b == 0
    {
      b := 0xFF;
      if isRead && txN == 0 && rxN == 1 && readReg.Some? {
        var result := readReg.value(rx[0]);
        regReads := regReads + [rx[0]];
        var bytes := LE32Bytes(result);
        tx[0], tx[1], tx[2], tx[3] := bytes[0], bytes[1], bytes[2], bytes[3];
        assert tx[..] == bytes + old(tx[4..]);
      }
      if txN < BUF_SIZE as uint32 {
        b := tx[txN];
        txN := txN + 1;
      }
    }
  }
}
