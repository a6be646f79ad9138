/** `sbeIntrHandle_t`: which interface each of the three handlers is working for. */
module InterruptSources {
  datatype Source = Fifo | Psu | Reset

  datatype Handler = AllHandlers | InterruptRoutine | RxRoutine | ProcRoutine

  /** One handler's mask: which interfaces' bits are set. */
  datatype Mask = Mask(fifo: bool, psu: bool, reset: bool) {
    predicate Has(v: Source) {
      match v case Fifo => fifo case Psu => psu case Reset => reset
    }

    function With(v: Source, on: bool): Mask {
      match v
      case Fifo => this.(fifo := on)
      case Psu => this.(psu := on)
      case Reset => this.(reset := on)
    }
  }

  const EMPTY := Mask(false, false, false)

  datatype Sources = Sources(intr: Mask, rx: Mask, proc: Mask)

  function Set(s: Sources, h: Handler, v: Source): Sources {
    match h
    case InterruptRoutine => s.(intr := s.intr.With(v, true))
    case RxRoutine => s.(rx := s.rx.With(v, true))
    case ProcRoutine => s.(proc := s.proc.With(v, true))
    case AllHandlers => s
  }

  function Clear(s: Sources, h: Handler, v: Source): Sources {
    match h
    case InterruptRoutine => s.(intr := s.intr.With(v, false))
    case RxRoutine => s.(rx := s.rx.With(v, false))
    case ProcRoutine => s.(proc := s.proc.With(v, false))
    case AllHandlers => Sources(s.intr.With(v, false), s.rx.With(v, false), s.proc.With(v, false))
  }

  predicate IsSet(s: Sources, h: Handler, v: Source) {
    match h
    case InterruptRoutine => s.intr.Has(v)
    case RxRoutine => s.rx.Has(v)
    case ProcRoutine => s.proc.Has(v)
    case AllHandlers => false
  }

  /** The bit of an interface in a mask byte. */
  function Bit(v: Source): bv8 {
    match v case Fifo => 1 case Psu => 2 case Reset => 4
  }

  function Decode(byte: bv8): Mask {
    Mask(byte & 1 != 0, byte & 2 != 0, byte & 4 != 0)
  }

  lemma BitOperations(byte: bv8, v: Source)
    ensures Decode(byte | Bit(v)) == Decode(byte).With(v, true)
    ensures Decode(byte & !Bit(v)) == Decode(byte).With(v, false)
    ensures (byte & Bit(v) != 0) == Decode(byte).Has(v)
  {
    match v { case Fifo => case Psu => case Reset => }
  }

  method SetBit(byte: bv8, v: Source) returns (r: bv8)
    ensures Decode(r) == Decode(byte).With(v, true)
  {
    BitOperations(byte, v);
    r := byte | Bit(v);
  }

  method ClearBit(byte: bv8, v: Source) returns (r: bv8)
    ensures Decode(r) == Decode(byte).With(v, false)
  {
    BitOperations(byte, v);
    r := byte & !Bit(v);
  }

  method TestBit(byte: bv8, v: Source) returns (r: bool)
    ensures r == Decode(byte).Has(v)
  {
    BitOperations(byte, v);
    r := byte & Bit(v) != 0;
  }

  /** The masks as the firmware keeps them, one byte each, updated in place. */
  class IntrHandle {
    var intrSource: bv8
    var rxThrIntrSource: bv8
    var procThrIntrSource: bv8

    ghost function View(): Sources
      reads this
    {
      Sources(Decode(intrSource), Decode(rxThrIntrSource), Decode(procThrIntrSource))
    }

    constructor ()
      ensures View() == Sources(EMPTY, EMPTY, EMPTY)
    {
      intrSource, rxThrIntrSource, procThrIntrSource := 0, 0, 0;
    }

    method SetIntrSource(h: Handler, v: Source)
      modifies this
      ensures View() == Set(old(View()), h, v)
    {
      match h
      case InterruptRoutine => intrSource := SetBit(intrSource, v);
      case RxRoutine => rxThrIntrSource := SetBit(rxThrIntrSource, v);
      case ProcRoutine => procThrIntrSource := SetBit(procThrIntrSource, v);
      case AllHandlers =>
    }

    method ClearIntrSource(h: Handler, v: Source)
      modifies this
      ensures View() == Clear(old(View()), h, v)
    {
      match h
      case InterruptRoutine => intrSource := ClearBit(intrSource, v);
      case RxRoutine => rxThrIntrSource := ClearBit(rxThrIntrSource, v);
      case ProcRoutine => procThrIntrSource := ClearBit(procThrIntrSource, v);
      case AllHandlers =>
        intrSource := ClearBit(intrSource, v);
        rxThrIntrSource := ClearBit(rxThrIntrSource, v);
        procThrIntrSource := ClearBit(procThrIntrSource, v);
    }

    method IsSourceSet(h: Handler, v: Source) returns (r: bool)
      ensures r == IsSet(View(), h, v)
    {
      match h
      case InterruptRoutine => r := TestBit(intrSource, v);
      case RxRoutine => r := TestBit(rxThrIntrSource, v);
      case ProcRoutine => r := TestBit(procThrIntrSource, v);
      case AllHandlers => r := false;
    }
  }
}
