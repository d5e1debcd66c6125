/**
  The bridge's in-memory ledger and its two event handlers, as the integration
  runs them: one `mapping` from user name to lock slot, loaded once and then
  updated in place by each event.  Every method is proved to do exactly what
  the functions of module Handlers say, so the lemmas proved there hold of it.
*/
module Sync {

  import opened Slots
  import opened Handlers

  class Ledger {
    /** User name to lock slot. */
    var mapping: map<string, int>

    /** The stored mapping, or an empty one when storage holds none. */
    constructor (loaded: Option<map<string, int>>)
      ensures mapping == if loaded.Some? then loaded.value else map[]
    {
      mapping := if loaded.Some? then loaded.value else map[];
    }

    /**
      Scans 1 .. MaxSlot upwards for the first slot that no name holds; None
      when every slot is taken.  Changes nothing.
    */
    method NextFreeSlot() returns (r: Option<int>)
      ensures r == NextFree(mapping.Values)
      ensures r.Some? ==> IsSmallestFree(mapping.Values, r.value)
      ensures r.None? ==> AllUsed(mapping.Values)
    {
      var used := mapping.Values;
      var slot := 1;
      while slot <= MaxSlot
        invariant 1 <= slot <= MaxSlot + 1
        invariant forall t :: 1 <= t < slot ==> t in used
        invariant NextFree(used) == FirstFreeFrom(used, slot)
      {
        if slot !in used {
          return Some(slot);
        }
        slot := slot + 1;
      }
      return None;
    }

    /**
      The slot of `name`, taking the next free one and recording it when the
      name has none (or holds slot 0); None, with nothing changed, when every
      slot is taken.
    */
    method SlotFor(name: string) returns (r: Option<int>)
      modifies this
      ensures SlotOf(old(mapping), name).Some? ==> r == SlotOf(old(mapping), name)
      ensures SlotOf(old(mapping), name).None? ==> r == NextFree(old(mapping.Values))
      ensures r.None? ==> AllUsed(old(mapping.Values))
      ensures mapping == if r.Some? then old(mapping)[name := r.value] else old(mapping)
    {
      if name in mapping && mapping[name] != 0 {
        r := Some(mapping[name]);
      } else {
        r := NextFreeSlot();
        if r.None? {
          return;
        }
      }
      mapping := mapping[name := r.value];
    }

    /**
      Handles one `call_service` event: an alarmo `enable_user` with a name
      and a code records the name's slot and pushes the code to it; an alarmo
      `disable_user` clears the name's slot if it has one and keeps the entry;
      anything else is ignored.
    */
    method HandleService(domain: Option<string>, service: Option<string>,
                         name: Option<string>, code: Option<string>) returns (out: Outcome)
      modifies this
      ensures Step(out, mapping) == ServiceStep(old(mapping), domain, service, name, code)
      ensures ValidSlots(old(mapping)) ==> ValidSlots(mapping) && KeepsEntries(old(mapping), mapping)
    {
      if ValidSlots(mapping) {
        ServiceKeepsLedger(mapping, domain, service, name, code);
      }
      if domain != Some(AlarmoDomain) {
        return Done([]);
      }
      if !Truthy(name) {
        return Done([]);
      }
      if service == Some(EnableUser) && Truthy(code) {
        var slot := SlotFor(name.value);
        if slot.None? {
          return Raised(NoFreeSlots);
        }
        return Done([Push(name.value, code.value, slot.value)]);
      } else if service == Some(DisableUser) {
        if name.value in mapping && mapping[name.value] != 0 {
          return Done([Clear(mapping[name.value])]);
        }
      }
      return Done([]);
    }

    /**
      Handles one `alarmo_plain_pin` event: records a slot for the name
      ("unnamed" when the event has none) and pushes the pin to it.  An event
      without a pin raises before anything changes.
    */
    method HandlePlainPin(name: Option<string>, pin: Option<string>) returns (out: Outcome)
      modifies this
      ensures Step(out, mapping) == PlainPinStep(old(mapping), name, pin)
      ensures ValidSlots(old(mapping)) ==> ValidSlots(mapping) && KeepsEntries(old(mapping), mapping)
    {
      if ValidSlots(mapping) {
        PlainPinKeepsLedger(mapping, name, pin);
      }
      var n := if name.Some? then name.value else Unnamed;
      if pin.None? {
        return Raised(MissingPin);
      }
      var slot := SlotFor(n);
      if slot.None? {
        return Raised(NoFreeSlots);
      }
      return Done([Push(n, pin.value, slot.value)]);
    }
  }
}
