/** Index maps between GPIO pin masks, pin numbers, port base addresses and
    port letters. The GPIO ports of the STM32F0 sit 0x400 bytes apart from
    GPIOA's base address. */
module Gpio {
  import opened CInt

  const GPIO_PORT_A_BASE: uint32 := 0x4800_0000
  const BANK_STRIDE: int := 0x400

  /** `id2pin`: the single-bit mask `1 << id`, truncated to the 16-bit
      return type (so 0 for ids 16..31; larger shifts are undefined in C). */
  function Id2Pin(id: uint8): (pin: uint16)
    requires id < 32
    ensures id < 16 ==> pin != 0
    ensures id >= 16 ==> pin == 0
  {
    (((1 as bv32) << id) & 0xFFFF) as int
  }

  /** `pin2id`: the bit number of a single-bit pin mask; every other value
      (no bit, several bits) falls through to 0. */
  function Pin2Id(pin: uint16): (id: uint8)
    ensures id < 16
  {
    match pin
    case 0x0001 => 0
    case 0x0002 => 1
    case 0x0004 => 2
    case 0x0008 => 3
    case 0x0010 => 4
    case 0x0020 => 5
    case 0x0040 => 6
    case 0x0080 => 7
    case 0x0100 => 8
    case 0x0200 => 9
    case 0x0400 => 10
    case 0x0800 => 11
    case 0x1000 => 12
    case 0x2000 => 13
    case 0x4000 => 14
    case 0x8000 => 15
    case _ => 0
  }

  /** A value is a pin mask when it is `id2pin` of one of the 16 pins. */
  predicate IsPinMask(pin: uint16)
  {
    exists i: uint8 :: i < 16 && Id2Pin(i) == pin
  }

  /** `pin2id` inverts `id2pin` on the 16 pins of a port. */
  lemma Pin2IdOfId2Pin(i: uint8)
    requires i < 16
    ensures Pin2Id(Id2Pin(i)) == i
  {
  }

  /** `pin2id` returns a pin whose mask is its argument, or 0 for anything
      that is not a pin mask. */
  lemma Pin2IdSpec(pin: uint16)
    ensures IsPinMask(pin) ==> Id2Pin(Pin2Id(pin)) == pin
    ensures !IsPinMask(pin) ==> Pin2Id(pin) == 0
  {
    if IsPinMask(pin) {
      var i: uint8 :| i < 16 && Id2Pin(i) == pin;
      Pin2IdOfId2Pin(i);
    }
    if Pin2Id(pin) != 0 {
      assert Id2Pin(Pin2Id(pin)) == pin;
    }
  }

  /** `bank2id`: the distance from GPIOA in units of 0x400, computed on
      uint32 and truncated to the 8-bit return type. */
  function Bank2Id(port: uint32): (id: uint8)
  {
    (U32(port - GPIO_PORT_A_BASE) / BANK_STRIDE) % TWO_8
  }

  /** `id2bank`: the base address of port `id` (A = 0, B = 1, ...). */
  function Id2Bank(id: uint8): (port: uint32)
    ensures port >= GPIO_PORT_A_BASE
    ensures (port - GPIO_PORT_A_BASE) % BANK_STRIDE == 0
  {
    GPIO_PORT_A_BASE + id * BANK_STRIDE
  }

  /** `bank2name`: the port letter, 'A' + bank2id, narrowed to the 8-bit
      `char` it returns (unsigned on this target). */
  function Bank2Name(port: uint32): (c: char)
  {
    ((('A' as int) + Bank2Id(port)) % TWO_8) as char
  }

  /** `bank2id` inverts `id2bank`. */
  lemma Bank2IdOfId2Bank(i: uint8)
    ensures Bank2Id(Id2Bank(i)) == i
  {
    DivUnique(i * BANK_STRIDE, BANK_STRIDE, i, 0);
  }

  /** ... and `id2bank` inverts `bank2id` on every port base address. */
  lemma Id2BankOfBank2Id(port: uint32)
    requires port >= GPIO_PORT_A_BASE
    requires (port - GPIO_PORT_A_BASE) % BANK_STRIDE == 0
    requires port - GPIO_PORT_A_BASE < TWO_8 * BANK_STRIDE
    ensures Id2Bank(Bank2Id(port)) == port
  {
    var k := (port - GPIO_PORT_A_BASE) / BANK_STRIDE;
    assert port - GPIO_PORT_A_BASE == k * BANK_STRIDE;
  }

  /** The port letter of port `i` is the i-th character after 'A' while
      that still fits the 8-bit `char`; from id 191 on it wraps round to
      the low codes ('A' + 255 gives '@'). */
  lemma Bank2NameOfId2Bank(i: uint8)
    ensures i < TWO_8 - 'A' as int ==> Bank2Name(Id2Bank(i)) == (('A' as int) + i) as char
    ensures i >= TWO_8 - 'A' as int ==> Bank2Name(Id2Bank(i)) == (('A' as int) + i - TWO_8) as char
    ensures Bank2Name(Id2Bank(255)) == '@'
  {
    Bank2IdOfId2Bank(i);
    Bank2IdOfId2Bank(255);
  }
}
