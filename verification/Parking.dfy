/**
  * The parking server's slot counters and car maps: what one message does to them, and what every run of
  * entries and exits keeps.
  */
module Parking {
  import opened Options

  type uint32 = n: int | 0 <= n < 0x1_0000_0000

  const YES := "Yes"
  const NO := "No"

  const ENTRANCE := 0
  const EXITING := 1

  datatype Car = Car(plate: string, time: string, gate: string, handicap: string)

  datatype Result = Accept | Full | Exist | Reject

  /** The answer to an entry: the slot number is part of the text that the driver is shown. */
  datatype Entry = Entry(result: Result, slot: int)

  /** The answer to an exit; a car whose record was moved away cannot be asked for its entrance time. */
  datatype Exit = Unknown | Goodbye | Undefined

  /** The counters and maps of the server. A registered plate may be left with a null pointer. */
  datatype State = State(handicapMax: uint32, normalMax: uint32, handicapFree: uint32, normalFree: uint32,
                         entranceGates: set<string>, exitingGates: set<string>,
                         registered: map<string, Option<Car>>, unregistered: map<string, Option<Car>>)

  /** An unsigned sum, stored in a signed integer. */
  function Slot(a: uint32, b: uint32): int {
    var sum := (a as int + b) % 0x1_0000_0000;
    if sum < 0x8000_0000 then sum else sum - 0x1_0000_0000
  }

  // ----- One message -----

  function GateRegistered(s: State, name: string, gateType: int): (State, Result) {
    if gateType == ENTRANCE then
      if name in s.entranceGates then (s, Exist) else (s.(entranceGates := s.entranceGates + {name}), Accept)
    else if gateType == EXITING then
      if name in s.exitingGates then (s, Exist) else (s.(exitingGates := s.exitingGates + {name}), Accept)
    else (s, Reject)
  }

  /** Whether an entry takes a handicap slot; otherwise it asks for a normal one. */
  predicate TakesHandicap(s: State, handicap: string) {
    handicap == YES && s.handicapFree != 0
  }

  function EntrySlot(s: State, handicap: string): int {
    if TakesHandicap(s, handicap) then Slot(s.normalMax, s.handicapFree)
    else if s.normalFree != 0 then Slot(s.normalFree, 0)
    else 0
  }

  function Entered(s: State, car: Car): (State, Entry) {
    if car.gate !in s.entranceGates then (s, Entry(Reject, 0))
    else
      var slot := EntrySlot(s, car.handicap);
      var counted :=
        if TakesHandicap(s, car.handicap) then s.(handicapFree := s.handicapFree - 1)
        else if s.normalFree != 0 then s.(normalFree := s.normalFree - 1)
        else s;
      if slot == 0 then (counted, Entry(Full, 0))
      else
        var record := if TakesHandicap(s, car.handicap) then car else car.(handicap := NO);
        (counted.(registered := counted.registered[car.plate := Some(record)]), Entry(Accept, slot))
  }

  function OneMore(n: uint32): uint32 {
    (n as int + 1) % 0x1_0000_0000
  }

  function Left(s: State, plate: string): (State, Exit) {
    if plate !in s.registered then (s, Unknown)
    else
      match s.registered[plate]
      case None => (s, Undefined)
      case Some(car) =>
        if car.handicap == YES then (s.(handicapFree := OneMore(s.handicapFree)), Goodbye)
        else (s.(normalFree := OneMore(s.normalFree),
                 unregistered := s.unregistered[plate := Some(car)],
                 registered := s.registered[plate := None]), Goodbye)
  }

  // ----- The server -----

  class ParkManagerServer {
    var handicapSlotCount: uint32
    var normalSlotCount: uint32
    const handicapSlotMax: uint32
    const normalSlotMax: uint32
    var entranceGates: set<string>
    var exitingGates: set<string>
    var registeredCars: map<string, Option<Car>>
    var unregisteredCars: map<string, Option<Car>>

    function View(): State
      reads this
    {
      State(handicapSlotMax, normalSlotMax, handicapSlotCount, normalSlotCount,
            entranceGates, exitingGates, registeredCars, unregisteredCars)
    }

    /** The configured numbers of slots, converted to unsigned. */
    constructor (handicapSlots: int, normalSlots: int)
      ensures View() == Initial(handicapSlots % 0x1_0000_0000, normalSlots % 0x1_0000_0000)
    {
      handicapSlotCount := handicapSlots % 0x1_0000_0000;
      normalSlotCount := normalSlots % 0x1_0000_0000;
      handicapSlotMax := handicapSlots % 0x1_0000_0000;
      normalSlotMax := normalSlots % 0x1_0000_0000;
      entranceGates, exitingGates := {}, {};
      registeredCars, unregisteredCars := map[], map[];
    }

    method OnGateRegistration(name: string, gateType: int) returns (result: Result)
      modifies this
      ensures (View(), result) == GateRegistered(old(View()), name, gateType)
    {
      if gateType == ENTRANCE {
        if name !in entranceGates {
          entranceGates := entranceGates + {name};
          result := Accept;
        } else {
          result := Exist;
        }
      } else if gateType == EXITING {
        if name !in exitingGates {
          exitingGates := exitingGates + {name};
          result := Accept;
        } else {
          result := Exist;
        }
      } else {
        result := Reject;
      }
    }

    method OnCarEntrance(gate: string, plate: string, time: string, requested: string) returns (entry: Entry)
      modifies this
      ensures (View(), entry) == Entered(old(View()), Car(plate, time, gate, requested))
    {
      if gate !in entranceGates {
        return Entry(Reject, 0);
      }
      var handicap, slot := requested, 0;
      if handicap == YES && handicapSlotCount != 0 {
        slot := Slot(normalSlotMax, handicapSlotCount);
        handicapSlotCount := handicapSlotCount - 1;
      } else if normalSlotCount != 0 {
        slot := Slot(normalSlotCount, 0);
        normalSlotCount := normalSlotCount - 1;
        handicap := NO;
      }
      if slot != 0 {
        registeredCars := registeredCars[plate := Some(Car(plate, time, gate, handicap))];
        entry := Entry(Accept, slot);
      } else {
        entry := Entry(Full, 0);
      }
    }

    method OnCarStatusUpdate(plate: string) returns (exit: Exit)
      modifies this
      ensures (View(), exit) == Left(old(View()), plate)
    {
      if plate !in registeredCars {
        return Unknown;
      }
      if registeredCars[plate] == None {
        return Undefined;
      }
      var car := registeredCars[plate].value;
      if car.handicap == YES {
        handicapSlotCount := OneMore(handicapSlotCount);
      } else {
        normalSlotCount := OneMore(normalSlotCount);
        unregisteredCars := unregisteredCars[plate := Some(car)];
        registeredCars := registeredCars[plate := None];
      }
      exit := Goodbye;
    }
  }

  function Initial(handicapMax: uint32, normalMax: uint32): State {
    State(handicapMax, normalMax, handicapMax, normalMax, {}, {}, map[], map[])
  }

  // ----- Runs -----

  /** The server together with the plates that really are in the car park, by the kind of slot they stand on. */
  datatype Park = Park(state: State, onNormal: set<string>, onHandicap: set<string>)

  datatype Event =
    | Register(name: string, gateType: int)
    | Enter(car: Car)
    | Leave(plate: string)

  predicate Parked(p: Park, plate: string) {
    plate in p.onNormal || plate in p.onHandicap
  }

  function EnterPark(p: Park, car: Car): Park {
    var (s, entry) := Entered(p.state, car);
    if entry.result != Accept then p.(state := s)
    else if TakesHandicap(p.state, car.handicap) then p.(state := s, onHandicap := p.onHandicap + {car.plate})
    else p.(state := s, onNormal := p.onNormal + {car.plate})
  }

  /** None is an exit whose outcome the program does not define. */
  function LeavePark(p: Park, plate: string): Option<Park> {
    var (s, exit) := Left(p.state, plate);
    if exit == Undefined then None
    else Some(Park(s, p.onNormal - {plate}, p.onHandicap - {plate}))
  }

  function Step(p: Park, e: Event): Option<Park> {
    match e
    case Register(name, gateType) => Some(p.(state := GateRegistered(p.state, name, gateType).0))
    case Enter(car) => Some(EnterPark(p, car))
    case Leave(plate) => LeavePark(p, plate)
  }

  /** A plate is registered for the kind of slot it stands on. */
  predicate RegisteredFor(s: State, plate: string, handicap: bool) {
    && plate in s.registered && s.registered[plate].Some?
    && (s.registered[plate].value.handicap == YES <==> handicap)
  }

  /** Free and occupied slots add up to the maximum of each kind. */
  predicate Counted(p: Park) {
    && p.state.normalFree + |p.onNormal| == p.state.normalMax
    && p.state.handicapFree + |p.onHandicap| == p.state.handicapMax
  }

  predicate Registered(p: Park) {
    && (forall plate :: plate in p.onNormal ==> RegisteredFor(p.state, plate, false))
    && (forall plate :: plate in p.onHandicap ==> RegisteredFor(p.state, plate, true))
  }

  /** No slot is lost or made up, and each car is registered for its kind of slot. */
  predicate Conserved(p: Park) {
    Counted(p) && Registered(p)
  }

  /** Slot numbers fit the sum that the server computes. */
  predicate Fits(s: State) {
    s.normalMax + s.handicapMax < 0x1_0000_0000
  }

  /** Whether an entry is let in. */
  predicate Admits(s: State, car: Car) {
    car.gate in s.entranceGates && (TakesHandicap(s, car.handicap) || s.normalFree != 0)
  }

  /** A plate enters only when it is not parked, and one that the server knows leaves only when it is. */
  predicate Disciplined(p: Park, e: Event) {
    match e
    case Register(_, _) => true
    case Enter(car) => Admits(p.state, car) ==> !Parked(p, car.plate)
    case Leave(plate) => plate in p.state.registered ==> Parked(p, plate)
  }

  lemma SlotIs(a: uint32, b: uint32)
    ensures a + b < 0x1_0000_0000 ==> (Slot(a, b) == 0 <==> a + b == 0)
    ensures a + b < 0x8000_0000 ==> Slot(a, b) == a + b
  {
  }

  lemma AdmitsIsAccept(s: State, car: Car)
    requires Fits(s) && s.handicapFree <= s.handicapMax && s.normalFree <= s.normalMax
    ensures Admits(s, car) <==> Entered(s, car).1.result == Accept
    ensures !Admits(s, car) ==> Entered(s, car).0 == s
  {
    SlotIs(s.normalMax, s.handicapFree);
    SlotIs(s.normalFree, 0);
    hide Slot;
  }

  lemma AddedSize(a: set<string>, x: string)
    ensures |a + {x}| == |a| + if x in a then 0 else 1
  {
    if x in a { assert a + {x} == a; }
  }

  lemma RemovedSize(a: set<string>, x: string)
    ensures |a - {x}| == |a| - if x in a then 1 else 0
  {
    if x !in a { assert a - {x} == a; }
  }

  /** The park after an entry that is let in. */
  lemma Admitted(p: Park, car: Car)
    requires Admits(p.state, car) && Fits(p.state)
    requires p.state.handicapFree <= p.state.handicapMax && p.state.normalFree <= p.state.normalMax
    ensures var s := p.state;
            EnterPark(p, car) ==
            if TakesHandicap(s, car.handicap) then
              Park(s.(handicapFree := s.handicapFree - 1, registered := s.registered[car.plate := Some(car)]),
                   p.onNormal, p.onHandicap + {car.plate})
            else
              Park(s.(normalFree := s.normalFree - 1,
                      registered := s.registered[car.plate := Some(car.(handicap := "No"))]),
                   p.onNormal + {car.plate}, p.onHandicap)
  {
    AdmitsIsAccept(p.state, car);
    hide Slot;
  }

  /** An entry keeps the slots conserved exactly when it is not a parked car that is let in again. */
  lemma EnterKeeps(p: Park, car: Car)
    requires Conserved(p) && Fits(p.state)
    ensures Conserved(EnterPark(p, car)) <==> Disciplined(p, Enter(car))
    ensures Fits(EnterPark(p, car).state)
  {
    AdmitsIsAccept(p.state, car);
    if Admits(p.state, car) {
      Admitted(p, car);
      if Parked(p, car.plate) {
        ParkedEnters(p, car);
      } else {
        UnparkedEnters(p, car);
      }
      hide Conserved, Admits, Parked, Entered;
    }
  }

  lemma UnparkedEnters(p: Park, car: Car)
    requires Conserved(p) && Fits(p.state) && Admits(p.state, car) && !Parked(p, car.plate)
    ensures Conserved(EnterPark(p, car))
  {
    Admitted(p, car);
    hide EnterPark, Entered, Slot, Admits, Fits;
    if TakesHandicap(p.state, car.handicap) {
      HandicapEnters(p, EnterPark(p, car), car);
    } else {
      NormalEnters(p, EnterPark(p, car), car.(handicap := NO));
    }
  }

  lemma HandicapEnters(p: Park, q: Park, record: Car)
    requires Conserved(p) && !Parked(p, record.plate) && record.handicap == YES && p.state.handicapFree > 0
    requires q.state == p.state.(handicapFree := p.state.handicapFree - 1,
                                 registered := p.state.registered[record.plate := Some(record)])
    requires q.onNormal == p.onNormal && q.onHandicap == p.onHandicap + {record.plate}
    ensures Conserved(q)
  {
    hide RegisteredFor;
    StillRegistered(p.state, q.state, p.onNormal, record, false);
    StillRegistered(p.state, q.state, p.onHandicap, record, true);
    AddedSize(p.onHandicap, record.plate);
    NowRegistered(q.state, record);
  }

  lemma NormalEnters(p: Park, q: Park, record: Car)
    requires Conserved(p) && !Parked(p, record.plate) && record.handicap == NO && p.state.normalFree > 0
    requires q.state == p.state.(normalFree := p.state.normalFree - 1,
                                 registered := p.state.registered[record.plate := Some(record)])
    requires q.onNormal == p.onNormal + {record.plate} && q.onHandicap == p.onHandicap
    ensures Conserved(q)
  {
    hide RegisteredFor;
    StillRegistered(p.state, q.state, p.onNormal, record, false);
    StillRegistered(p.state, q.state, p.onHandicap, record, true);
    AddedSize(p.onNormal, record.plate);
    NowRegistered(q.state, record);
  }

  lemma NowRegistered(s: State, car: Car)
    requires car.plate in s.registered && s.registered[car.plate] == Some(car)
    ensures RegisteredFor(s, car.plate, car.handicap == YES)
  {
  }

  lemma StillRegistered(s: State, t: State, plates: set<string>, record: Car, handicap: bool)
    requires forall other :: other in plates ==> RegisteredFor(s, other, handicap)
    requires record.plate !in plates
    requires t.registered == s.registered[record.plate := Some(record)]
    ensures forall other :: other in plates ==> RegisteredFor(t, other, handicap)
  {
  }

  lemma ParkedEnters(p: Park, car: Car)
    requires Conserved(p) && Fits(p.state) && Admits(p.state, car) && Parked(p, car.plate)
    ensures !Conserved(EnterPark(p, car))
  {
    Admitted(p, car);
    hide EnterPark, Entered, Slot, Admits, Fits;
    var q := EnterPark(p, car);
    if TakesHandicap(p.state, car.handicap) {
      AddedSize(p.onHandicap, car.plate);
      assert car.plate in p.onHandicap ==> !Counted(q);
      assert car.plate in p.onNormal ==> !RegisteredFor(q.state, car.plate, false);
    } else {
      AddedSize(p.onNormal, car.plate);
      assert car.plate in p.onNormal ==> !Counted(q);
      assert car.plate in p.onHandicap ==> !RegisteredFor(q.state, car.plate, true);
    }
  }

  /** The park after an exit of a registered car. */
  lemma Departed(p: Park, plate: string, car: Car)
    requires plate in p.state.registered && p.state.registered[plate] == Some(car)
    ensures var s := p.state;
            LeavePark(p, plate) ==
            Some(Park(if car.handicap == YES then s.(handicapFree := OneMore(s.handicapFree))
                      else s.(normalFree := OneMore(s.normalFree),
                              unregistered := s.unregistered[plate := Some(car)],
                              registered := s.registered[plate := None]),
                      p.onNormal - {plate}, p.onHandicap - {plate}))
  {
  }

  lemma OneMoreIs(n: uint32, max: uint32)
    ensures n < max ==> OneMore(n) == n + 1
    ensures OneMore(n) != n
  {
  }

  lemma CarLeaves(p: Park, plate: string, car: Car)
    requires Conserved(p)
    requires plate in p.state.registered && p.state.registered[plate] == Some(car)
    ensures LeavePark(p, plate).Some?
    ensures Conserved(LeavePark(p, plate).value) <==> Parked(p, plate)
    ensures LeavePark(p, plate).value.state.normalMax == p.state.normalMax
    ensures LeavePark(p, plate).value.state.handicapMax == p.state.handicapMax
  {
    Departed(p, plate, car);
    assert plate in p.onNormal ==> RegisteredFor(p.state, plate, false);
    assert plate in p.onHandicap ==> RegisteredFor(p.state, plate, true);
    assert RegisteredFor(p.state, plate, car.handicap == YES);
    hide LeavePark, Left, OneMore, RegisteredFor, Counted, Registered;
    var q := LeavePark(p, plate).value;
    SlotGivenBack(p, q, plate, car.handicap == YES);
    assert Registered(q) by { OthersStay(p, plate, q); }
  }

  lemma SlotGivenBack(p: Park, q: Park, plate: string, handicap: bool)
    requires Counted(p)
    requires plate in p.onNormal ==> !handicap
    requires plate in p.onHandicap ==> handicap
    requires q.state.normalMax == p.state.normalMax && q.state.handicapMax == p.state.handicapMax
    requires q.state.normalFree == if handicap then p.state.normalFree else OneMore(p.state.normalFree)
    requires q.state.handicapFree == if handicap then OneMore(p.state.handicapFree) else p.state.handicapFree
    requires q.onNormal == p.onNormal - {plate} && q.onHandicap == p.onHandicap - {plate}
    ensures Counted(q) <==> Parked(p, plate)
  {
    RemovedSize(p.onHandicap, plate);
    RemovedSize(p.onNormal, plate);
    OneMoreIs(p.state.normalFree, p.state.normalMax);
    OneMoreIs(p.state.handicapFree, p.state.handicapMax);
    hide OneMore;
  }

  lemma OthersStay(p: Park, plate: string, q: Park)
    requires Registered(p)
    requires forall other :: other != plate ==> (other in q.state.registered <==> other in p.state.registered)
    requires forall other :: other != plate && other in p.state.registered ==>
               q.state.registered[other] == p.state.registered[other]
    requires q.onNormal == p.onNormal - {plate} && q.onHandicap == p.onHandicap - {plate}
    ensures Registered(q)
  {
    forall other | other in q.onNormal
      ensures RegisteredFor(q.state, other, false)
    {
      assert RegisteredFor(p.state, other, false);
    }
    forall other | other in q.onHandicap
      ensures RegisteredFor(q.state, other, true)
    {
      assert RegisteredFor(p.state, other, true);
    }
  }

  /** An exit is defined and keeps the slots conserved exactly when no registered plate leaves that is not parked. */
  lemma LeaveKeeps(p: Park, plate: string)
    requires Conserved(p)
    ensures LeavePark(p, plate).Some? && Conserved(LeavePark(p, plate).value) <==> Disciplined(p, Leave(plate))
    ensures LeavePark(p, plate).Some? && Fits(p.state) ==> Fits(LeavePark(p, plate).value.state)
  {
    assert plate in p.onNormal ==> RegisteredFor(p.state, plate, false);
    assert plate in p.onHandicap ==> RegisteredFor(p.state, plate, true);
    if plate in p.state.registered && p.state.registered[plate].Some? {
      CarLeaves(p, plate, p.state.registered[plate].value);
      hide Conserved, LeavePark;
    } else if plate !in p.state.registered {
      assert p.onNormal - {plate} == p.onNormal && p.onHandicap - {plate} == p.onHandicap;
      assert LeavePark(p, plate) == Some(p);
    }
  }

  /** Over one step. */
  lemma StepKeeps(p: Park, e: Event)
    requires Conserved(p) && Fits(p.state)
    ensures Step(p, e).Some? && Conserved(Step(p, e).value) <==> Disciplined(p, e)
    ensures Step(p, e).Some? ==> Fits(Step(p, e).value.state)
  {
    hide EnterPark, LeavePark, Disciplined;
    match e
    case Register(_, _) => assert Disciplined(p, e) by { RegisterIsDisciplined(p, e); }
    case Enter(car) => EnterKeeps(p, car);
    case Leave(plate) => LeaveKeeps(p, plate);
  }

  lemma RegisterIsDisciplined(p: Park, e: Event)
    requires e.Register?
    ensures Disciplined(p, e)
  {
  }

  /** Every state of a run is defined and has its slots conserved. */
  predicate AlwaysConserved(p: Park, events: seq<Event>)
    decreases |events|
  {
    Conserved(p) && (events == [] || (Step(p, events[0]).Some? && AlwaysConserved(Step(p, events[0]).value, events[1..])))
  }

  /** Every step of a run is disciplined. */
  predicate AlwaysDisciplined(p: Park, events: seq<Event>)
    decreases |events|
  {
    events == [] ||
    (Disciplined(p, events[0]) && (Step(p, events[0]).Some? ==> AlwaysDisciplined(Step(p, events[0]).value, events[1..])))
  }

  lemma {:induction false} RunKeeps(p: Park, events: seq<Event>)
    requires Conserved(p) && Fits(p.state)
    ensures AlwaysConserved(p, events) <==> AlwaysDisciplined(p, events)
    decreases |events|
  {
    hide Conserved, Step, Disciplined, Fits;
    if events != [] {
      StepKeeps(p, events[0]);
      if Step(p, events[0]).Some? {
        var q := Step(p, events[0]).value;
        if Conserved(q) {
          RunKeeps(q, events[1..]);
        } else {
          assert AlwaysConserved(q, events[1..]) ==> Conserved(q);
        }
      }
    }
  }

  function Empty(handicapMax: uint32, normalMax: uint32): Park {
    Park(Initial(handicapMax, normalMax), {}, {})
  }

  /** From an empty car park, the slots are conserved throughout exactly the disciplined runs. */
  lemma ConservedIffDisciplined(handicapMax: uint32, normalMax: uint32, events: seq<Event>)
    requires normalMax + handicapMax < 0x1_0000_0000
    ensures AlwaysConserved(Empty(handicapMax, normalMax), events)
            <==> AlwaysDisciplined(Empty(handicapMax, normalMax), events)
  {
    RunKeeps(Empty(handicapMax, normalMax), events);
  }

  // ----- The slot count alone -----

  /**
    * What keeps free plus occupied slots, whatever is registered: an admitted plate is not yet counted for the kind
    * of slot it gets; a plate without a record stands on no slot, and one with a record on its record's kind only.
    */
  predicate KeepsCount(p: Park, e: Event) {
    match e
    case Register(_, _) => true
    case Enter(car) =>
      Admits(p.state, car) ==> car.plate !in if TakesHandicap(p.state, car.handicap) then p.onHandicap else p.onNormal
    case Leave(plate) =>
      if plate !in p.state.registered then !Parked(p, plate)
      else
        && p.state.registered[plate].Some?
        && (plate in p.onHandicap <==> p.state.registered[plate].value.handicap == YES)
        && (plate in p.onNormal <==> p.state.registered[plate].value.handicap != YES)
  }

  lemma EnterCounts(p: Park, car: Car)
    requires Counted(p) && Fits(p.state)
    ensures Counted(EnterPark(p, car)) <==> KeepsCount(p, Enter(car))
    ensures Fits(EnterPark(p, car).state)
  {
    AdmitsIsAccept(p.state, car);
    if Admits(p.state, car) {
      Admitted(p, car);
      hide EnterPark, Entered;
      AddedSize(p.onHandicap, car.plate);
      AddedSize(p.onNormal, car.plate);
    }
  }

  lemma LeaveCounts(p: Park, plate: string)
    requires Counted(p)
    ensures LeavePark(p, plate).Some? && Counted(LeavePark(p, plate).value) <==> KeepsCount(p, Leave(plate))
    ensures LeavePark(p, plate).Some? && Fits(p.state) ==> Fits(LeavePark(p, plate).value.state)
  {
    if plate !in p.state.registered {
      RemovedSize(p.onHandicap, plate);
      RemovedSize(p.onNormal, plate);
    } else if p.state.registered[plate].Some? {
      RecordLeavesCounts(p, plate, p.state.registered[plate].value);
      hide LeavePark, Counted;
    }
  }

  lemma RecordLeavesCounts(p: Park, plate: string, car: Car)
    requires Counted(p)
    requires plate in p.state.registered && p.state.registered[plate] == Some(car)
    ensures LeavePark(p, plate).Some?
    ensures Counted(LeavePark(p, plate).value) <==> KeepsCount(p, Leave(plate))
    ensures LeavePark(p, plate).value.state.normalMax == p.state.normalMax
    ensures LeavePark(p, plate).value.state.handicapMax == p.state.handicapMax
  {
    Departed(p, plate, car);
    hide LeavePark, OneMore;
    RemovedSize(p.onHandicap, plate);
    RemovedSize(p.onNormal, plate);
    OneMoreIs(p.state.normalFree, p.state.normalMax);
    OneMoreIs(p.state.handicapFree, p.state.handicapMax);
  }

  lemma StepCounts(p: Park, e: Event)
    requires Counted(p) && Fits(p.state)
    ensures Step(p, e).Some? && Counted(Step(p, e).value) <==> KeepsCount(p, e)
    ensures Step(p, e).Some? ==> Fits(Step(p, e).value.state)
  {
    match e
    case Register(_, _) =>
    case Enter(car) => EnterCounts(p, car);
    case Leave(plate) => LeaveCounts(p, plate);
    hide EnterPark, LeavePark, Admits;
  }

  predicate AlwaysCounted(p: Park, events: seq<Event>)
    decreases |events|
  {
    Counted(p) && (events == [] || (Step(p, events[0]).Some? && AlwaysCounted(Step(p, events[0]).value, events[1..])))
  }

  predicate AlwaysKeepsCount(p: Park, events: seq<Event>)
    decreases |events|
  {
    events == [] ||
    (KeepsCount(p, events[0]) && (Step(p, events[0]).Some? ==> AlwaysKeepsCount(Step(p, events[0]).value, events[1..])))
  }

  lemma {:induction false} RunCounts(p: Park, events: seq<Event>)
    requires Counted(p) && Fits(p.state)
    ensures AlwaysCounted(p, events) <==> AlwaysKeepsCount(p, events)
    decreases |events|
  {
    hide Counted, Step, KeepsCount, Fits;
    if events != [] {
      StepCounts(p, events[0]);
      if Step(p, events[0]).Some? {
        var q := Step(p, events[0]).value;
        if Counted(q) {
          RunCounts(q, events[1..]);
        } else {
          assert AlwaysCounted(q, events[1..]) ==> Counted(q);
        }
      }
    }
  }

  /** From an empty car park, free plus occupied slots equal the maximum throughout exactly the runs that keep the count. */
  lemma CountedIffKept(handicapMax: uint32, normalMax: uint32, events: seq<Event>)
    requires normalMax + handicapMax < 0x1_0000_0000
    ensures AlwaysCounted(Empty(handicapMax, normalMax), events)
            <==> AlwaysKeepsCount(Empty(handicapMax, normalMax), events)
  {
    RunCounts(Empty(handicapMax, normalMax), events);
  }

  /** A disciplined event keeps the count. */
  lemma DisciplinedKeepsCount(p: Park, e: Event)
    requires Conserved(p) && Fits(p.state) && Disciplined(p, e)
    ensures KeepsCount(p, e)
  {
    StepKeeps(p, e);
    StepCounts(p, e);
    hide Step, Disciplined, KeepsCount, Registered, Counted, Fits;
  }

  /** A parked car let in on a slot of the other kind keeps the count for now, and breaks it when it leaves. */
  lemma ReentryOnOtherKind(p: Park, car: Car)
    requires Conserved(p) && Fits(p.state) && Admits(p.state, car) && Parked(p, car.plate) && KeepsCount(p, Enter(car))
    ensures var q := EnterPark(p, car);
            && Counted(q) && !Registered(q)
            && LeavePark(q, car.plate).Some? && !Counted(LeavePark(q, car.plate).value)
  {
    EnterCounts(p, car);
    EnterKeeps(p, car);
    Admitted(p, car);
    var q := EnterPark(p, car);
    assert car.plate in q.onNormal && car.plate in q.onHandicap;
    LeaveCounts(q, car.plate);
    Departed(q, car.plate, q.state.registered[car.plate].value);
    hide EnterPark, LeavePark, Counted, Registered;
  }

  // ----- Gates -----

  /** What the answer to a registration means, and that nothing but the set of the gate's type changes. */
  lemma RegistrationMeans(s: State, name: string, gateType: int)
    ensures var (t, result) := GateRegistered(s, name, gateType);
            var entrance, exiting := gateType == 0, gateType == 1;
            && (result == Reject <==> !entrance && !exiting)
            && (result == Exist <==> (entrance && name in s.entranceGates) || (exiting && name in s.exitingGates))
            && (result == Exist || result == Reject <==> t == s)
            && t == s.(entranceGates := t.entranceGates, exitingGates := t.exitingGates)
            && t.entranceGates == s.entranceGates + (if entrance then {name} else {})
            && t.exitingGates == s.exitingGates + (if exiting then {name} else {})
  {
    assert s.entranceGates + {} == s.entranceGates && s.exitingGates + {} == s.exitingGates;
    if name in s.entranceGates { assert s.entranceGates + {name} == s.entranceGates; }
    if name in s.exitingGates { assert s.exitingGates + {name} == s.exitingGates; }
  }

  lemma {:induction false} GatesOnlyGrow(p: Park, events: seq<Event>, q: Park)
    requires EndsIn(p, events, q)
    ensures p.state.entranceGates <= q.state.entranceGates && p.state.exitingGates <= q.state.exitingGates
    decreases |events|
  {
    if events != [] {
      StepKeepsGates(p, events[0]);
      hide Step;
      GatesOnlyGrow(Step(p, events[0]).value, events[1..], q);
    }
  }

  lemma StepKeepsGates(p: Park, e: Event)
    requires Step(p, e).Some?
    ensures p.state.entranceGates <= Step(p, e).value.state.entranceGates
    ensures p.state.exitingGates <= Step(p, e).value.state.exitingGates
  {
    hide Slot, EntrySlot, TakesHandicap, OneMore;
  }

  /** A gate of a known type is registered once: after any run, registering it again is answered with Exist. */
  lemma RegisteredOnce(p: Park, name: string, gateType: int, events: seq<Event>, q: Park)
    requires gateType == ENTRANCE || gateType == EXITING
    requires EndsIn(p, [Register(name, gateType)] + events, q)
    ensures GateRegistered(q.state, name, gateType) == (q.state, Exist)
  {
    var all := [Register(name, gateType)] + events;
    assert all[1..] == events;
    RegistrationMeans(p.state, name, gateType);
    GatesOnlyGrow(Step(p, all[0]).value, events, q);
    hide EndsIn;
  }

  // ----- Slots -----

  /** Conservation bounds the counters and forbids more cars than slots. */
  lemma Bounds(p: Park)
    requires Conserved(p)
    ensures p.state.normalFree <= p.state.normalMax && p.state.handicapFree <= p.state.handicapMax
    ensures |p.onNormal| <= p.state.normalMax && |p.onHandicap| <= p.state.handicapMax
  {
  }

  /**
    * A handicap driver gets the highest handicap slot while one is free, anyone else the highest normal slot; handicap
    * slots are numbered behind the normal ones. A driver is turned away exactly when no slot is left for them.
    */
  lemma SlotRanges(p: Park, car: Car)
    requires Conserved(p) && p.state.normalMax + p.state.handicapMax < 0x8000_0000
    ensures var entry := Entered(p.state, car).1;
            var handicap := car.handicap == "Yes" && |p.onHandicap| < p.state.handicapMax;
            && (entry.result == Accept && handicap ==>
                  && p.state.normalMax < entry.slot <= p.state.normalMax + p.state.handicapMax
                  && entry.slot == p.state.normalMax + p.state.handicapMax - |p.onHandicap|)
            && (entry.result == Accept && !handicap ==>
                  && 1 <= entry.slot <= p.state.normalMax
                  && entry.slot == p.state.normalMax - |p.onNormal|)
            && (entry.result == Full <==>
                  && car.gate in p.state.entranceGates
                  && |p.onNormal| == p.state.normalMax
                  && (car.handicap == "Yes" ==> |p.onHandicap| == p.state.handicapMax))
            && (entry.result == Reject <==> car.gate !in p.state.entranceGates)
            && entry.result != Exist
  {
    AdmitsIsAccept(p.state, car);
    SlotIs(p.state.normalMax, p.state.handicapFree);
    SlotIs(p.state.normalFree, 0);
    hide Slot;
  }

  /** Leaving frees a slot of the kind the car stands on, and moves the record of a car on a normal slot to those that left. */
  lemma LeavingFreesOwnKind(p: Park, plate: string)
    requires Conserved(p) && Parked(p, plate)
    ensures LeavePark(p, plate).Some? && plate in p.state.registered
    ensures var q := LeavePark(p, plate).value.state;
            && (plate in p.onNormal ==> q.normalFree == p.state.normalFree + 1 && q.handicapFree == p.state.handicapFree)
            && (plate in p.onHandicap ==> q.handicapFree == p.state.handicapFree + 1 && q.normalFree == p.state.normalFree)
            && (plate in p.onNormal ==>
                  && q.unregistered == p.state.unregistered[plate := p.state.registered[plate]]
                  && q.registered == p.state.registered[plate := None])
            && (plate in p.onHandicap ==> q.unregistered == p.state.unregistered && q.registered == p.state.registered)
  {
    assert plate in p.onNormal ==> RegisteredFor(p.state, plate, false);
    assert plate in p.onHandicap ==> RegisteredFor(p.state, plate, true);
    Departed(p, plate, p.state.registered[plate].value);
    hide LeavePark, Left, OneMore;
    RemovedSize(p.onHandicap, plate);
    RemovedSize(p.onNormal, plate);
    OneMoreIs(p.state.normalFree, p.state.normalMax);
    OneMoreIs(p.state.handicapFree, p.state.handicapMax);
  }

  /** A second exit of the same plate is not caught: it is undefined after a normal slot, and counts a handicap slot twice. */
  lemma LeavesTwice(p: Park, plate: string)
    requires Conserved(p) && Parked(p, plate)
    ensures LeavePark(p, plate).Some?
    ensures var q := LeavePark(p, plate).value;
            if plate in p.onNormal then LeavePark(q, plate) == None
            else LeavePark(q, plate).Some? && !Counted(LeavePark(q, plate).value)
  {
    assert plate in p.onNormal ==> RegisteredFor(p.state, plate, false);
    assert plate in p.onHandicap ==> RegisteredFor(p.state, plate, true);
    var car := p.state.registered[plate].value;
    Departed(p, plate, car);
    CarLeaves(p, plate, car);
    var q := LeavePark(p, plate).value;
    if car.handicap == YES { RecordLeavesCounts(q, plate, car); }
    hide Counted, Registered, RegisteredFor;
  }

  /** A handicap driver whom only a normal slot was left for gives back a normal slot, whatever happens in between. */
  lemma HandicapOnNormal(p: Park, car: Car, events: seq<Event>, q: Park)
    requires Conserved(p) && Fits(p.state)
    requires car.handicap == YES && p.state.handicapFree == 0 && Admits(p.state, car) && !Parked(p, car.plate)
    requires EndsIn(EnterPark(p, car), events, q) && AlwaysDisciplined(EnterPark(p, car), events)
    requires forall e :: e in events ==> e != Leave(car.plate)
    ensures car.plate in q.onNormal
    ensures LeavePark(q, car.plate).Some?
    ensures LeavePark(q, car.plate).value.state.normalFree == q.state.normalFree + 1
    ensures LeavePark(q, car.plate).value.state.handicapFree == q.state.handicapFree
  {
    EnterKeeps(p, car);
    Admitted(p, car);
    hide EnterPark, EndsIn, AlwaysDisciplined, LeavePark;
    var start := EnterPark(p, car);
    assert car.plate in start.onNormal;
    StaysOnNormal(start, car.plate, events, q);
    LeavingFreesOwnKind(q, car.plate);
  }

  predicate EndsIn(p: Park, events: seq<Event>, q: Park)
    decreases |events|
  {
    if events == [] then p == q else Step(p, events[0]).Some? && EndsIn(Step(p, events[0]).value, events[1..], q)
  }

  lemma {:induction false} StaysOnNormal(p: Park, plate: string, events: seq<Event>, q: Park)
    requires Conserved(p) && Fits(p.state) && plate in p.onNormal
    requires EndsIn(p, events, q) && AlwaysDisciplined(p, events)
    requires forall e :: e in events ==> e != Leave(plate)
    ensures Conserved(q) && plate in q.onNormal
    decreases |events|
  {
    if events != [] {
      var e := events[0];
      assert e in events;
      StepKeeps(p, e);
      StepStays(p, plate, e);
      hide Conserved, Disciplined, Fits, Step;
      assert forall f :: f in events[1..] ==> f in events;
      StaysOnNormal(Step(p, e).value, plate, events[1..], q);
    }
  }

  lemma StepStays(p: Park, plate: string, e: Event)
    requires plate in p.onNormal && e != Leave(plate) && Step(p, e).Some?
    ensures plate in Step(p, e).value.onNormal
  {
    hide Entered, Left, GateRegistered;
  }

  // ----- The answer to an exit, over runs -----

  /** Some entry of the plate in a run is answered with Accept. */
  predicate AdmittedIn(p: Park, events: seq<Event>, plate: string)
    decreases |events|
  {
    events != [] && (
      || (events[0].Enter? && events[0].car.plate == plate && Entered(p.state, events[0].car).1.result == Accept)
      || (Step(p, events[0]).Some? && AdmittedIn(Step(p, events[0]).value, events[1..], plate)))
  }

  /** A run ends with the records of the plates that were registered before it or admitted in it. */
  lemma {:induction false} RecordedIff(p: Park, events: seq<Event>, q: Park, plate: string)
    requires EndsIn(p, events, q)
    ensures plate in q.state.registered <==> plate in p.state.registered || AdmittedIn(p, events, plate)
    decreases |events|
  {
    if events != [] {
      StepRecords(p, events[0], plate);
      hide Step;
      RecordedIff(Step(p, events[0]).value, events[1..], q, plate);
    }
  }

  lemma StepRecords(p: Park, e: Event, plate: string)
    requires Step(p, e).Some?
    ensures plate in Step(p, e).value.state.registered <==>
            || plate in p.state.registered
            || (e.Enter? && e.car.plate == plate && Entered(p.state, e.car).1.result == Accept)
  {
    hide Slot, EntrySlot, TakesHandicap, OneMore;
  }

  /** After any run from an empty car park, a plate is unknown at the exit exactly when it was never admitted. */
  lemma UnknownIffNeverAdmitted(handicapMax: uint32, normalMax: uint32, events: seq<Event>, q: Park, plate: string)
    requires EndsIn(Empty(handicapMax, normalMax), events, q)
    ensures Left(q.state, plate).1 == Unknown <==> !AdmittedIn(Empty(handicapMax, normalMax), events, plate)
    ensures Left(q.state, plate).1 == Unknown ==> Left(q.state, plate).0 == q.state
  {
    RecordedIff(Empty(handicapMax, normalMax), events, q, plate);
    hide EndsIn, AdmittedIn, OneMore;
  }

  lemma {:induction false} DisciplineConserves(p: Park, events: seq<Event>, q: Park)
    requires Conserved(p) && Fits(p.state) && EndsIn(p, events, q) && AlwaysDisciplined(p, events)
    ensures Conserved(q)
    decreases |events|
  {
    if events != [] {
      StepKeeps(p, events[0]);
      hide Conserved, Disciplined, Fits, Step;
      DisciplineConserves(Step(p, events[0]).value, events[1..], q);
    }
  }

  /**
    * After any disciplined run from an empty car park, the driver of a parked car is seen off, and every car that is
    * parked was admitted in that run.
    */
  lemma GoodbyeWhenParked(handicapMax: uint32, normalMax: uint32, events: seq<Event>, q: Park, plate: string)
    requires normalMax + handicapMax < 0x1_0000_0000
    requires EndsIn(Empty(handicapMax, normalMax), events, q) && AlwaysDisciplined(Empty(handicapMax, normalMax), events)
    requires Parked(q, plate)
    ensures Left(q.state, plate).1 == Goodbye
    ensures AdmittedIn(Empty(handicapMax, normalMax), events, plate)
  {
    DisciplineConserves(Empty(handicapMax, normalMax), events, q);
    RecordedIff(Empty(handicapMax, normalMax), events, q, plate);
    hide EndsIn, AlwaysDisciplined, AdmittedIn, OneMore;
    assert plate in q.onNormal ==> RegisteredFor(q.state, plate, false);
    assert plate in q.onHandicap ==> RegisteredFor(q.state, plate, true);
  }

  /** The last stay of a plate: none, one on a normal slot that it may have left, or one on a handicap slot. */
  datatype Stay = Never | Normal(gone: bool) | Handicap

  function StepStay(p: Park, e: Event, plate: string, stay: Stay): Stay {
    if e.Enter? && e.car.plate == plate && Entered(p.state, e.car).1.result == Accept then
      if e.car.handicap == "Yes" && p.state.handicapFree > 0 then Handicap else Normal(false)
    else if e == Leave(plate) && stay.Normal? then Normal(true)
    else stay
  }

  /** The last stay of a plate in a run, told from who was admitted and who left. */
  function LastStay(p: Park, events: seq<Event>, plate: string, stay: Stay): Stay
    decreases |events|
  {
    if events == [] || Step(p, events[0]).None? then stay
    else LastStay(Step(p, events[0]).value, events[1..], plate, StepStay(p, events[0], plate, stay))
  }

  /** What the answer to an exit is for each kind of last stay. */
  function ExitAfter(stay: Stay): Exit {
    match stay
    case Never => Unknown
    case Normal(gone) => if gone then Undefined else Goodbye
    case Handicap => Goodbye
  }

  /** The record agrees with the last stay. */
  predicate Recorded(s: State, plate: string, stay: Stay) {
    match stay
    case Never => plate !in s.registered
    case Normal(gone) => plate in s.registered && if gone then s.registered[plate] == None else RegisteredFor(s, plate, false)
    case Handicap => RegisteredFor(s, plate, true)
  }

  lemma StepKeepsRecord(p: Park, e: Event, plate: string, stay: Stay)
    requires Step(p, e).Some? && Recorded(p.state, plate, stay)
    ensures Recorded(Step(p, e).value.state, plate, StepStay(p, e, plate, stay))
  {
    hide Slot, EntrySlot, OneMore;
  }

  lemma {:induction false} RunKeepsRecord(p: Park, events: seq<Event>, q: Park, plate: string, stay: Stay)
    requires EndsIn(p, events, q) && Recorded(p.state, plate, stay)
    ensures Recorded(q.state, plate, LastStay(p, events, plate, stay))
    decreases |events|
  {
    if events != [] {
      StepKeepsRecord(p, events[0], plate, stay);
      hide Step, Recorded, StepStay;
      RunKeepsRecord(Step(p, events[0]).value, events[1..], q, plate, StepStay(p, events[0], plate, stay));
    }
  }

  /**
    * After any run from an empty car park, disciplined or not: a plate is unknown before its first admission, seen off
    * after it, and its exit is undefined exactly when it has left since its last admission and that was to a normal slot.
    */
  lemma ExitAnswers(handicapMax: uint32, normalMax: uint32, events: seq<Event>, q: Park, plate: string)
    requires EndsIn(Empty(handicapMax, normalMax), events, q)
    ensures Left(q.state, plate).1 == ExitAfter(LastStay(Empty(handicapMax, normalMax), events, plate, Never))
  {
    RunKeepsRecord(Empty(handicapMax, normalMax), events, q, plate, Never);
    hide EndsIn, LastStay, OneMore;
  }
}
