/**
  What the two event handlers of the bridge do to the ledger, as functions of
  the ledger before the event.

  The service handler watches every service call on the Home Assistant bus:
  `alarmo.enable_user` with a name and a code gives the name a slot (its old
  one if it has one) and pushes the code to that slot of the lock;
  `alarmo.disable_user` clears the name's slot on the lock and keeps the
  reservation.  The plain-PIN handler does the same as an enable for the
  `{name, pin}` events sent by the front end.

  The outbound calls to the lock are not performed here: a handler returns
  the list of calls it would make, as `Action` values.
*/
module Handlers {

  import opened Slots

  /** An outbound call to the lock's code-slot interface. */
  datatype Action =
    | Push(name: string, code: string, slot: int)   // zha.set_lock_user_code
    | Clear(slot: int)                              // zha.clear_lock_user_code

  /** An exception that ends a handler before it records or sends anything. */
  datatype Error =
    | NoFreeSlots   // the ValueError of the free-slot scan
    | MissingPin    // the KeyError of a plain-PIN event without "pin"

  datatype Outcome = Done(actions: seq<Action>) | Raised(error: Error)

  /** A handler's outcome together with the ledger it leaves behind. */
  datatype Step = Step(outcome: Outcome, mapping: map<string, int>)

  const AlarmoDomain: string := "alarmo"
  const EnableUser: string := "enable_user"
  const DisableUser: string := "disable_user"
  /** The name a plain-PIN event without a "name" field is recorded under. */
  const Unnamed: string := "unnamed"

  /** A string field read as a Python truth value: present and non-empty. */
  predicate Truthy(field: Option<string>) {
    field.Some? && field.value != ""
  }

  /** `mapping.get(name)` read as a truth value: a stored slot 0 counts as none. */
  function SlotOf(m: map<string, int>, name: string): Option<int> {
    if name in m && m[name] != 0 then Some(m[name]) else None
  }

  /** Reuse the name's slot or take the next free one, record it, push the code. */
  function Upsert(m: map<string, int>, name: string, code: string): Step {
    match SlotOf(m, name)
    case Some(s) => Step(Done([Push(name, code, s)]), m[name := s])
    case None =>
      match NextFree(m.Values)
      case None => Step(Raised(NoFreeSlots), m)
      case Some(s) => Step(Done([Push(name, code, s)]), m[name := s])
  }

  /** The service-call handler, on the fields of one `call_service` event. */
  function ServiceStep(m: map<string, int>, domain: Option<string>, service: Option<string>,
                       name: Option<string>, code: Option<string>): Step
  {
    if domain != Some(AlarmoDomain) || !Truthy(name) then Step(Done([]), m)
    else if service == Some(EnableUser) && Truthy(code) then Upsert(m, name.value, code.value)
    else if service == Some(DisableUser) then
      match SlotOf(m, name.value)
      case Some(s) => Step(Done([Clear(s)]), m)
      case None => Step(Done([]), m)
    else Step(Done([]), m)
  }

  /** The plain-PIN handler, on the fields of one `alarmo_plain_pin` event. */
  function PlainPinStep(m: map<string, int>, name: Option<string>, pin: Option<string>): Step {
    var n := if name.Some? then name.value else Unnamed;
    if pin.None? then Step(Raised(MissingPin), m) else Upsert(m, n, pin.value)
  }

  /** `m'` keeps every entry of `m` with the same slot. */
  predicate KeepsEntries(m: map<string, int>, m': map<string, int>) {
    forall n :: n in m ==> n in m' && m'[n] == m[n]
  }

  // ---------------------------------------------------------------------------
  // Allocation

  /**
    An upsert either reuses the name's slot, or gives it the smallest free
    slot, or fails because every slot is taken; it never touches another
    name's entry, and a failure changes nothing.
  */
  lemma UpsertCases(m: map<string, int>, name: string, code: string)
    ensures SlotOf(m, name).Some? ==>
      Upsert(m, name, code) == Step(Done([Push(name, code, m[name])]), m)
    ensures SlotOf(m, name).None? && AllUsed(m.Values) ==>
      Upsert(m, name, code) == Step(Raised(NoFreeSlots), m)
    ensures forall s :: SlotOf(m, name).None? && IsSmallestFree(m.Values, s) ==>
      Upsert(m, name, code) == Step(Done([Push(name, code, s)]), m[name := s])
  {
    NextFreeCorrect(m.Values);
    if SlotOf(m, name).Some? {
      assert m[name := m[name]] == m;
    }
  }

  /** An upsert into a well-formed ledger leaves it well-formed and keeps every old entry. */
  lemma UpsertKeepsLedger(m: map<string, int>, name: string, code: string)
    requires ValidSlots(m)
    ensures ValidSlots(Upsert(m, name, code).mapping)
    ensures KeepsEntries(m, Upsert(m, name, code).mapping)
    ensures Upsert(m, name, code).mapping.Keys <= m.Keys + {name}
  {
    NextFreeCorrect(m.Values);
    if SlotOf(m, name).Some? {
      assert m[name := m[name]] == m;
    } else if NextFree(m.Values).Some? {
      var s := NextFree(m.Values).value;
      var m' := m[name := s];
      assert name !in m;
      forall a, b | a in m' && b in m' && a != b ensures m'[a] != m'[b] {
        if a == name {
          assert m'[b] == m[b] && m[b] in m.Values;
        } else if b == name {
          assert m'[a] == m[a] && m[a] in m.Values;
        }
      }
    }
  }

  // ---------------------------------------------------------------------------
  // The service-call handler

  /** A call outside the alarmo domain changes nothing and sends nothing. */
  lemma ForeignDomainIgnored(m: map<string, int>, domain: Option<string>, service: Option<string>,
                             name: Option<string>, code: Option<string>)
    requires domain != Some(AlarmoDomain)
    ensures ServiceStep(m, domain, service, name, code) == Step(Done([]), m)
  {
  }

  /**
    A call without a (non-empty) name, or an enable without a (non-empty)
    code, changes nothing and pushes nothing.
  */
  lemma MalformedCallIgnored(m: map<string, int>, domain: Option<string>, service: Option<string>,
                             name: Option<string>, code: Option<string>)
    requires !Truthy(name) || (service == Some(EnableUser) && !Truthy(code))
    ensures ServiceStep(m, domain, service, name, code) == Step(Done([]), m)
  {
  }

  /**
    Re-enabling a name that already has a slot pushes to that same slot and
    leaves the ledger as it was: of two enables with different codes only the
    pushed code differs.
  */
  lemma EnableReusesSlot(m: map<string, int>, name: string, code1: string, code2: string)
    requires name != "" && code1 != "" && code2 != ""
    requires SlotOf(m, name).Some?
    ensures ServiceStep(m, Some(AlarmoDomain), Some(EnableUser), Some(name), Some(code1))
         == Step(Done([Push(name, code1, m[name])]), m)
    ensures ServiceStep(m, Some(AlarmoDomain), Some(EnableUser), Some(name), Some(code2))
         == Step(Done([Push(name, code2, m[name])]), m)
  {
    UpsertCases(m, name, code1);
    UpsertCases(m, name, code2);
  }

  /** A new name is given the smallest free slot and the code goes to that slot. */
  lemma EnableAllocatesSmallestFree(m: map<string, int>, name: string, code: string, s: int)
    requires name != "" && code != ""
    requires SlotOf(m, name).None? && IsSmallestFree(m.Values, s)
    ensures ServiceStep(m, Some(AlarmoDomain), Some(EnableUser), Some(name), Some(code))
         == Step(Done([Push(name, code, s)]), m[name := s])
  {
    UpsertCases(m, name, code);
  }

  /** With every slot taken, enabling a new name fails with no change and no push. */
  lemma EnableWhenFullFails(m: map<string, int>, name: string, code: string)
    requires name != "" && code != ""
    requires SlotOf(m, name).None? && AllUsed(m.Values)
    ensures ServiceStep(m, Some(AlarmoDomain), Some(EnableUser), Some(name), Some(code))
         == Step(Raised(NoFreeSlots), m)
  {
    UpsertCases(m, name, code);
  }

  /**
    In a well-formed ledger an enable fails exactly when the name has no slot
    and all MaxSlot slots are held by other names.
  */
  lemma EnableFailsIffFull(m: map<string, int>, name: string, code: string)
    requires ValidSlots(m) && name != "" && code != ""
    ensures ServiceStep(m, Some(AlarmoDomain), Some(EnableUser), Some(name), Some(code)).outcome.Raised?
        <==> name !in m && |m| == MaxSlot
  {
    UpsertCases(m, name, code);
    NextFreeCorrect(m.Values);
    FullIffCapacity(m);
  }

  /** Disabling never changes the ledger; it clears the name's slot when it has one. */
  lemma DisableKeepsLedger(m: map<string, int>, name: string, code: Option<string>)
    requires name != ""
    ensures ServiceStep(m, Some(AlarmoDomain), Some(DisableUser), Some(name), code).mapping == m
    ensures ServiceStep(m, Some(AlarmoDomain), Some(DisableUser), Some(name), code).outcome
         == if SlotOf(m, name).Some? then Done([Clear(m[name])]) else Done([])
  {
  }

  /** A disabled and then re-enabled name gets its former slot back. */
  lemma RevokeThenReenable(m: map<string, int>, name: string, code: string)
    requires name != "" && code != "" && SlotOf(m, name).Some?
    ensures
      var after := ServiceStep(m, Some(AlarmoDomain), Some(DisableUser), Some(name), None).mapping;
      ServiceStep(after, Some(AlarmoDomain), Some(EnableUser), Some(name), Some(code))
        == Step(Done([Push(name, code, m[name])]), m)
  {
    DisableKeepsLedger(m, name, None);
    EnableReusesSlot(m, name, code, code);
  }

  /** Every service call keeps a well-formed ledger well-formed and keeps every old entry. */
  lemma ServiceKeepsLedger(m: map<string, int>, domain: Option<string>, service: Option<string>,
                           name: Option<string>, code: Option<string>)
    requires ValidSlots(m)
    ensures ValidSlots(ServiceStep(m, domain, service, name, code).mapping)
    ensures KeepsEntries(m, ServiceStep(m, domain, service, name, code).mapping)
  {
    if domain == Some(AlarmoDomain) && Truthy(name) && service == Some(EnableUser) && Truthy(code) {
      UpsertKeepsLedger(m, name.value, code.value);
    }
  }

  /**
    The same `enable_user` call seen twice allocates once: the second enable
    of a name finds the slot the first one recorded, pushes to it again and
    changes nothing.
  */
  lemma DuplicateEnableAllocatesOnce(m: map<string, int>, name: string, code: string)
    requires name != "" && code != ""
    requires ServiceStep(m, Some(AlarmoDomain), Some(EnableUser), Some(name), Some(code)).outcome.Done?
    ensures var first := ServiceStep(m, Some(AlarmoDomain), Some(EnableUser), Some(name), Some(code));
            ServiceStep(first.mapping, Some(AlarmoDomain), Some(EnableUser), Some(name), Some(code)) == first
  {
    var first := Upsert(m, name, code);
    NextFreeCorrect(m.Values);
    assert SlotOf(first.mapping, name).Some?;
    UpsertCases(first.mapping, name, code);
  }

  // ---------------------------------------------------------------------------
  // The plain-PIN handler

  /**
    A plain-PIN event is an upsert of its pin under its name, or under
    "unnamed" when it has none; without a pin it raises before changing anything.
  */
  lemma PlainPinCases(m: map<string, int>, name: Option<string>, pin: Option<string>)
    ensures pin.None? ==> PlainPinStep(m, name, pin) == Step(Raised(MissingPin), m)
    ensures pin.Some? && name.None? ==> PlainPinStep(m, name, pin) == Upsert(m, Unnamed, pin.value)
    ensures pin.Some? && name.Some? ==> PlainPinStep(m, name, pin) == Upsert(m, name.value, pin.value)
  {
  }

  /** A plain PIN for a name that has a slot goes to that slot; the ledger is unchanged. */
  lemma PlainPinReusesSlot(m: map<string, int>, name: Option<string>, pin: string)
    requires var n := if name.Some? then name.value else Unnamed; SlotOf(m, n).Some?
    ensures var n := if name.Some? then name.value else Unnamed;
            PlainPinStep(m, name, Some(pin)) == Step(Done([Push(n, pin, m[n])]), m)
  {
    UpsertCases(m, if name.Some? then name.value else Unnamed, pin);
  }

  /** A plain PIN for a name without a slot records the smallest free slot and pushes to it. */
  lemma PlainPinAllocatesSmallestFree(m: map<string, int>, name: Option<string>, pin: string, s: int)
    requires var n := if name.Some? then name.value else Unnamed;
             SlotOf(m, n).None? && IsSmallestFree(m.Values, s)
    ensures var n := if name.Some? then name.value else Unnamed;
            PlainPinStep(m, name, Some(pin)) == Step(Done([Push(n, pin, s)]), m[n := s])
  {
    UpsertCases(m, if name.Some? then name.value else Unnamed, pin);
  }

  /** Every plain-PIN event keeps a well-formed ledger well-formed and keeps every old entry. */
  lemma PlainPinKeepsLedger(m: map<string, int>, name: Option<string>, pin: Option<string>)
    requires ValidSlots(m)
    ensures ValidSlots(PlainPinStep(m, name, pin).mapping)
    ensures KeepsEntries(m, PlainPinStep(m, name, pin).mapping)
  {
    if pin.Some? {
      UpsertKeepsLedger(m, if name.Some? then name.value else Unnamed, pin.value);
    }
  }

  /**
    One edit of a code can reach the bridge through both listeners: the
    front end's plain-PIN event and the `enable_user` service call.  Whichever
    comes first allocates; the second finds that slot, pushes its own code to
    it and changes nothing.
  */
  lemma PlainPinThenEnableAllocatesOnce(m: map<string, int>, name: string, pin: string, code: string)
    requires name != "" && code != ""
    requires PlainPinStep(m, Some(name), Some(pin)).outcome.Done?
    ensures
      var first := PlainPinStep(m, Some(name), Some(pin));
      ServiceStep(first.mapping, Some(AlarmoDomain), Some(EnableUser), Some(name), Some(code))
        == Step(Done([Push(name, code, first.mapping[name])]), first.mapping)
  {
    var first := Upsert(m, name, pin);
    NextFreeCorrect(m.Values);
    assert SlotOf(first.mapping, name).Some?;
    UpsertCases(first.mapping, name, code);
  }

  lemma EnableThenPlainPinAllocatesOnce(m: map<string, int>, name: string, code: string, pin: string)
    requires name != "" && code != ""
    requires ServiceStep(m, Some(AlarmoDomain), Some(EnableUser), Some(name), Some(code)).outcome.Done?
    ensures
      var first := ServiceStep(m, Some(AlarmoDomain), Some(EnableUser), Some(name), Some(code));
      PlainPinStep(first.mapping, Some(name), Some(pin))
        == Step(Done([Push(name, pin, first.mapping[name])]), first.mapping)
  {
    var first := Upsert(m, name, code);
    NextFreeCorrect(m.Values);
    assert SlotOf(first.mapping, name).Some?;
    UpsertCases(first.mapping, name, pin);
  }

  // ---------------------------------------------------------------------------
  // A worked sequence of events

  /**
    Starting empty: alice gets slot 1, bob slot 2; disabling alice clears slot
    1 and keeps both entries; enabling alice again pushes her new code to slot 1.
  */
  lemma AliceBobScenario()
    ensures var s1 := ServiceStep(map[], Some(AlarmoDomain), Some(EnableUser), Some("alice"), Some("1234"));
            var s2 := ServiceStep(s1.mapping, Some(AlarmoDomain), Some(EnableUser), Some("bob"), Some("5678"));
            var s3 := ServiceStep(s2.mapping, Some(AlarmoDomain), Some(DisableUser), Some("alice"), None);
            var s4 := ServiceStep(s3.mapping, Some(AlarmoDomain), Some(EnableUser), Some("alice"), Some("9999"));
            && s1 == Step(Done([Push("alice", "1234", 1)]), map["alice" := 1])
            && s2 == Step(Done([Push("bob", "5678", 2)]), map["alice" := 1, "bob" := 2])
            && s3 == Step(Done([Clear(1)]), map["alice" := 1, "bob" := 2])
            && s4 == Step(Done([Push("alice", "9999", 1)]), map["alice" := 1, "bob" := 2])
  {
    var m1 := map["alice" := 1];
    EnableAllocatesSmallestFree(map[], "alice", "1234", 1);
    assert m1.Values == {1};
    assert "bob" !in m1;
    EnableAllocatesSmallestFree(m1, "bob", "5678", 2);
    var m2 := map["alice" := 1, "bob" := 2];
    assert m1["bob" := 2] == m2;
    DisableKeepsLedger(m2, "alice", None);
    EnableReusesSlot(m2, "alice", "9999", "9999");
  }
}
