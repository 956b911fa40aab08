/** The external-interrupt channel registry: one channel per pin number
    0..15, each owned by at most one GPIO port. */
module Exti {
  import opened CInt
  import Gpio

  const EXTI_COUNT: int := 16

  /** The error codes of set/remove/enable/disable. */
  datatype Error = Success | Exists | NotExists

  function ErrorCode(e: Error): (code: int)
    ensures code <= 0 && (code == 0 <==> e == Success)
  {
    match e
    case Success => 0
    case Exists => -1
    case NotExists => -2
  }

  datatype Trigger = Rising | Falling | Both

  /** A callback or user-data pointer, by identity; 0 is the null pointer
      (an empty delegate). */
  type Handle = nat

  const NULL: Handle := 0

  /** A channel slot. A bank of 0 marks the slot as free. */
  datatype Channel = Channel(bank: uint32, callback: Handle, userData: Handle)

  const FREE := Channel(0, NULL, NULL)

  /** The slot a pin mask selects. The mask parameter is 32-bit but
      `pin2id` takes 16 bits, so the upper half is dropped first. */
  function Slot(pin: uint32): (id: nat)
    ensures id < EXTI_COUNT
  {
    Gpio.Pin2Id(pin % TWO_16)
  }

  /** What the interrupt handler passes to the channel's callback: the pin
      level when both edges trigger, otherwise the edge that triggered. */
  function EdgeState(onRising: bool, onFalling: bool, level: bool): (state: bool)
    ensures onRising && onFalling ==> state == level
    ensures onRising && !onFalling ==> state
    ensures !onRising ==> !state
  {
    if onRising && onFalling then level else onRising
  }

  class Registry {
    /** The channel table. */
    var channels: array<Channel>
    /** Lines whose interrupt request is unmasked. */
    var requested: set<nat>
    /** Lines configured to trigger on a rising / on a falling edge. */
    var rising: set<nat>
    var falling: set<nat>
    /** The port routed to each line by the source selection. */
    var source: seq<uint32>

    ghost predicate Valid()
      reads this
    {
      channels.Length == EXTI_COUNT && |source| == EXTI_COUNT
    }

    constructor ()
      ensures Valid() && fresh(channels)
      ensures forall i :: 0 <= i < EXTI_COUNT ==> channels[i] == FREE
      ensures requested == {} && rising == {} && falling == {}
    {
      channels := new Channel[EXTI_COUNT](_ => FREE);
      requested, rising, falling := {}, {}, {};
      source := seq(EXTI_COUNT, _ => 0);
    }

    /** The slot of `pin` is registered to `bank`. */
    predicate Owns(bank: uint32, pin: uint32)
      requires Valid()
      reads this, channels
    {
      channels[Slot(pin)].bank != 0 && channels[Slot(pin)].bank == bank
    }

    method Enable(bank: uint32, pin: uint32) returns (err: Error)
      requires Valid()
      modifies this`requested
      ensures err == (if Owns(bank, pin) then Success else NotExists)
      ensures requested == if Owns(bank, pin) then old(requested) + {Slot(pin)} else old(requested)
    {
      var id := Slot(pin);
      if channels[id].bank == 0 || channels[id].bank != bank {
        return NotExists;
      }
      requested := requested + {id};
      err := Success;
    }

    method Disable(bank: uint32, pin: uint32) returns (err: Error)
      requires Valid()
      modifies this`requested
      ensures err == Success
      ensures requested == if Owns(bank, pin) then old(requested) - {Slot(pin)} else old(requested)
    {
      var id := Slot(pin);
      if channels[id].bank == 0 || channels[id].bank != bank {
        return Success;
      }
      requested := requested - {id};
      err := Success;
    }

    /** Registers a callback. An occupied slot is refused whatever its bank,
        since slots are keyed by pin number alone. */
    method Set(bank: uint32, pin: uint32, trigger: Trigger, callback: Handle, userData: Handle)
      returns (err: Error)
      requires Valid()
      modifies this, channels
      ensures Valid() && channels == old(channels)
      ensures old(channels[Slot(pin)].bank) != 0 ==>
        err == Exists && channels[..] == old(channels[..]) && requested == old(requested)
        && rising == old(rising) && falling == old(falling) && source == old(source)
      ensures old(channels[Slot(pin)].bank) == 0 ==>
        && channels[..] == old(channels[..])[Slot(pin) := Channel(bank, callback, userData)]
        && source == old(source)[Slot(pin) := bank]
        && (Slot(pin) in rising <==> trigger != Falling)
        && (Slot(pin) in falling <==> trigger != Rising)
        && err == (if bank != 0 then Success else NotExists)
        && requested == (if bank != 0 then old(requested) + {Slot(pin)} else old(requested))
    {
      var id := Slot(pin);
      if channels[id].bank != 0 {
        return Exists;
      }
      channels[id] := Channel(bank, callback, userData);
      source := source[id := bank];
      rising := if trigger != Falling then rising + {id} else rising - {id};
      falling := if trigger != Rising then falling + {id} else falling - {id};
      err := Enable(bank, pin);
    }

    /** Unregisters the slot of `pin` if `bank` owns it. The slot is cleared
        before `disable` runs, so `disable` no longer sees an owner and the
        line's request stays unmasked. */
    method Remove(bank: uint32, pin: uint32) returns (err: Error)
      requires Valid()
      modifies this, channels
      ensures Valid() && channels == old(channels) && err == Success
      ensures rising == old(rising) && falling == old(falling) && requested == old(requested)
      ensures !old(Owns(bank, pin)) ==> channels[..] == old(channels[..]) && source == old(source)
      ensures old(Owns(bank, pin)) ==>
        channels[..] == old(channels[..])[Slot(pin) := FREE] && source == old(source)[Slot(pin) := 0]
    {
      var id := Slot(pin);
      if channels[id].bank == 0 || channels[id].bank != bank {
        return Success;
      }
      channels[id] := FREE;
      source := source[id := 0];
      err := Disable(bank, pin);
    }

    /** Remove with the request masked while the slot still has its owner. */
    method RemoveCorrected(bank: uint32, pin: uint32) returns (err: Error)
      requires Valid()
      modifies this, channels
      ensures Valid() && channels == old(channels) && err == Success
      ensures rising == old(rising) && falling == old(falling)
      ensures !old(Owns(bank, pin)) ==>
        channels[..] == old(channels[..]) && source == old(source) && requested == old(requested)
      ensures old(Owns(bank, pin)) ==>
        && channels[..] == old(channels[..])[Slot(pin) := FREE] && source == old(source)[Slot(pin) := 0]
        && requested == old(requested) - {Slot(pin)}
    {
      var id := Slot(pin);
      if channels[id].bank == 0 || channels[id].bank != bank {
        return Success;
      }
      err := Disable(bank, pin);
      channels[id] := FREE;
      source := source[id := 0];
    }

    /** The interrupt of line `id`: the callback and user data to invoke and
        the state passed to it, given the current level of the pin. */
    method HandleIrq(id: nat, level: bool) returns (callback: Handle, userData: Handle, state: bool)
      requires Valid() && id < EXTI_COUNT
      ensures callback == channels[id].callback && userData == channels[id].userData
      ensures id in rising && id in falling ==> state == level
      ensures id in rising && id !in falling ==> state
      ensures id !in rising ==> !state
    {
      state := EdgeState(id in rising, id in falling, level);
      callback, userData := channels[id].callback, channels[id].userData;
    }
  }

  /** Port B's pin 3 is refused while port A's pin 3 is registered. */
  method SamePinOtherBank() returns (first: Error, second: Error)
    ensures first == Success && second == Exists
  {
    var r := new Registry();
    var pin := Gpio.Id2Pin(3);
    first := r.Set(Gpio.Id2Bank(0), pin, Both, 1, 0);
    second := r.Set(Gpio.Id2Bank(1), pin, Both, 2, 0);
  }

  /** After set and remove, the line's request is still unmasked. */
  method RemoveKeepsRequest() returns (removed: Error, stillRequested: bool)
    ensures removed == Success && stillRequested
  {
    var r := new Registry();
    var bank, pin := Gpio.Id2Bank(0), Gpio.Id2Pin(5);
    var added := r.Set(bank, pin, Falling, 1, 0);
    removed := r.Remove(bank, pin);
    stillRequested := Slot(pin) in r.requested;
  }

  /** With the corrected order, set then remove leaves the line masked. */
  method RemoveCorrectedMasksRequest() returns (removed: Error, stillRequested: bool)
    ensures removed == Success && !stillRequested
  {
    var r := new Registry();
    var bank, pin := Gpio.Id2Bank(0), Gpio.Id2Pin(5);
    var added := r.Set(bank, pin, Falling, 1, 0);
    removed := r.RemoveCorrected(bank, pin);
    stillRequested := Slot(pin) in r.requested;
  }
}
