# Alarmo ↔ ZHA lock sync: the slot ledger and its event handlers

The integration `alarmo_zha_lock_sync` copies the PIN codes of Alarmo alarm-panel
users onto a Zigbee (ZHA) smart lock. The lock has no concept of users, only numbered
code slots. So the integration keeps a ledger, `mapping`, from user name to slot
number. The ledger is loaded once from storage and then updated in place by two
event handlers:

- **service handler** (`_handle_alarmo_service`): it watches every `call_service`
  event on the bus and keeps only the `alarmo` domain.
  - `enable_user` with a non-empty name and a non-empty code reuses the name's slot.
    If the name has none, it takes the smallest slot in 1..254 that no name holds.
    It records the slot and pushes the code to it (`zha.set_lock_user_code`).
  - `disable_user` clears the name's slot on the lock (`zha.clear_lock_user_code`).
    The name keeps its entry in the ledger.
- **plain-PIN handler** (`_handle_plain_pin`): it handles the `alarmo_plain_pin` event
  sent by the front end. It does the same as an enable, using the event's name, or
  `"unnamed"` when the event has no name field.

The project has three modules:

- `Slots` (`slots.dfy`): the free-slot scan as a recursive function, `NextFree`. It
  also proves that the scan returns exactly the smallest free slot, and gives the
  counting facts behind the capacity limit.
- `Handlers` (`handlers.dfy`): each handler as a pure function from the ledger and
  the event's fields to a `Step`. A `Step` holds the handler's outcome and the new
  ledger. The outcome is either a list of outbound lock calls (`Push(name, code, slot)`,
  `Clear(slot)`) or the exception that ended the handler. The lemmas about these
  functions state the properties of the handlers.
- `Sync` (`sync.dfy`): class `Ledger`, with a `mapping` field that its methods update
  in place. These methods are `NextFreeSlot` (the `for` loop over `range(1, 255)`),
  `SlotFor`, `HandleService` and `HandlePlainPin`. Each is proved to match the
  `Handlers` function it implements.

Python truth values are modelled exactly:

- A name or code counts only when it is present and non-empty.
- `mapping.get(name) or _next_free_slot()` treats a stored slot 0 as no slot (`SlotOf`).
- `disable_user` clears nothing for a stored slot 0.

The ledger invariant is `ValidSlots`: slots pairwise distinct and within 1..254. The
integration does not check the loaded mapping against it. So no `Ledger` method and no handler
function requires it. The preservation lemmas assume it holds before the event and prove it
holds after, and the handler methods carry the same fact as an implication.

Behaviour of the code worth noting:

- `disable_user` never removes the entry. No handler releases a slot.
- A plain-PIN event without a name is not ignored. It is recorded under `"unnamed"`.
  A name given as `""` is recorded under `""`.
- A plain-PIN event without a pin raises `KeyError` (`Raised(MissingPin)`) before
  anything changes. An empty pin is pushed as it is.
- When every slot is taken, the `ValueError` of the scan leaves the handler uncaught
  (`Raised(NoFreeSlots)`). The ledger is unchanged and nothing is pushed. No
  notification is raised for it.
- The highest slot is the constant 254. It is not configurable.

## Model

| member | source | states |
|---|---|---|
| `Slots.FirstFreeFromCorrect` | custom_components/alarmo_zha_lock_sync/__init__.py:25-28 | scanning upwards from a point below which every slot is used yields the smallest free slot, or fails only when all of 1..254 are used |
| `Slots.NextFreeCorrect` | custom_components/alarmo_zha_lock_sync/__init__.py:23-28 | the free-slot scan returns s exactly when s is the smallest slot in 1..254 not among the mapping's values, and fails exactly when every slot 1..254 is used |
| `Slots.SmallestFreeUnique` | custom_components/alarmo_zha_lock_sync/__init__.py:25-27 | the smallest free slot in 1..254 is unique |
| `Slots.FullIffCapacity` | custom_components/alarmo_zha_lock_sync/__init__.py:23-28 | a ledger with distinct in-range slots holds at most 254 names, and every slot is used exactly when it holds 254 names |
| `Slots.FreeSlotBelowCapacity` | custom_components/alarmo_zha_lock_sync/__init__.py:23-28 | whatever the ledger holds, fewer than 254 names leave the scan a free slot |
| `Handlers.UpsertCases` | custom_components/alarmo_zha_lock_sync/__init__.py:63-64 | `mapping.get(name) or _next_free_slot()` followed by the store: reuse (ledger unchanged), smallest free slot recorded, or failure with the ledger unchanged and no push |
| `Handlers.UpsertKeepsLedger` | custom_components/alarmo_zha_lock_sync/__init__.py:63-64 | recording a slot keeps slots distinct and in 1..254, keeps every existing entry's slot, and adds at most the one name |
| `Handlers.ForeignDomainIgnored` | custom_components/alarmo_zha_lock_sync/__init__.py:57 | a service call whose domain is not "alarmo" leaves the ledger unchanged and sends no push or clear |
| `Handlers.MalformedCallIgnored` | custom_components/alarmo_zha_lock_sync/__init__.py:60-62 | a call with an absent or empty name, or an `enable_user` with an absent or empty code, leaves the ledger unchanged and sends nothing |
| `Handlers.EnableReusesSlot` | custom_components/alarmo_zha_lock_sync/__init__.py:62-66 | enabling a name that has a slot pushes to that same slot and keeps the ledger; two enables with different codes differ only in the pushed code |
| `Handlers.EnableAllocatesSmallestFree` | custom_components/alarmo_zha_lock_sync/__init__.py:62-66 | enabling a name without a slot records the smallest free slot for it and pushes the code to that slot |
| `Handlers.EnableWhenFullFails` | custom_components/alarmo_zha_lock_sync/__init__.py:62-64 | with every slot 1..254 used, enabling a new name raises the no-free-slot error with the ledger unchanged and no push |
| `Handlers.EnableFailsIffFull` | custom_components/alarmo_zha_lock_sync/__init__.py:62-64 | in a well-formed ledger an enable fails exactly when the name has no entry and 254 names hold all the slots |
| `Handlers.DisableKeepsLedger` | custom_components/alarmo_zha_lock_sync/__init__.py:67-69 | `disable_user` never changes the ledger, and issues one clear for the name's slot exactly when the name has a (non-zero) slot, otherwise nothing |
| `Handlers.RevokeThenReenable` | custom_components/alarmo_zha_lock_sync/__init__.py:62-69 | a name disabled and then enabled again gets its former slot back, with the ledger as before |
| `Handlers.ServiceKeepsLedger` | custom_components/alarmo_zha_lock_sync/__init__.py:56-69 | every service-call event keeps a well-formed ledger well-formed and never moves an existing name to another slot |
| `Handlers.DuplicateEnableAllocatesOnce` | custom_components/alarmo_zha_lock_sync/__init__.py:62-66 | the same `enable_user` call seen twice allocates once: the second finds the recorded slot, pushes to it again and changes nothing |
| `Handlers.PlainPinThenEnableAllocatesOnce` | custom_components/alarmo_zha_lock_sync/__init__.py:56-78 | a plain-PIN event followed by an `enable_user` for the same name allocates once: the enable pushes its code to the slot the plain PIN recorded and changes nothing |
| `Handlers.EnableThenPlainPinAllocatesOnce` | custom_components/alarmo_zha_lock_sync/__init__.py:56-78 | an `enable_user` followed by a plain-PIN event for the same name allocates once: the plain PIN is pushed to the slot the enable recorded and nothing changes |
| `Handlers.PlainPinCases` | custom_components/alarmo_zha_lock_sync/__init__.py:72-78 | a plain-PIN event is an upsert of its pin under its name, or under "unnamed" when the name field is absent; without a pin it raises before any change |
| `Handlers.PlainPinReusesSlot` | custom_components/alarmo_zha_lock_sync/__init__.py:73-78 | a plain PIN for a name with a slot is pushed to that slot and the ledger is unchanged |
| `Handlers.PlainPinAllocatesSmallestFree` | custom_components/alarmo_zha_lock_sync/__init__.py:73-78 | a plain PIN for a name without a slot records the smallest free slot and pushes the pin to it |
| `Handlers.PlainPinKeepsLedger` | custom_components/alarmo_zha_lock_sync/__init__.py:72-78 | every plain-PIN event keeps a well-formed ledger well-formed and keeps every existing entry's slot |
| `Handlers.AliceBobScenario` | custom_components/alarmo_zha_lock_sync/__init__.py:56-69 | from an empty ledger: alice gets slot 1, bob slot 2, disabling alice clears slot 1 with both entries kept, and re-enabling alice pushes her new code to slot 1 |
| `Sync.Ledger.constructor` | custom_components/alarmo_zha_lock_sync/__init__.py:19 | the ledger starts as the stored mapping, or empty when storage holds none |
| `Sync.Ledger.NextFreeSlot` | custom_components/alarmo_zha_lock_sync/__init__.py:23-28 | the loop returns the smallest slot in 1..254 not used by the mapping, or none when all are used, and changes nothing |
| `Sync.Ledger.SlotFor` | custom_components/alarmo_zha_lock_sync/__init__.py:63-64 | returns the name's non-zero slot, else the next free slot, and records it; on failure the mapping is unchanged |
| `Sync.Ledger.HandleService` | custom_components/alarmo_zha_lock_sync/__init__.py:56-69 | the outcome and the new mapping are those of `ServiceStep` on the old mapping; a well-formed ledger stays well-formed with every old entry kept |
| `Sync.Ledger.HandlePlainPin` | custom_components/alarmo_zha_lock_sync/__init__.py:72-78 | the outcome and the new mapping are those of `PlainPinStep` on the old mapping; a well-formed ledger stays well-formed with every old entry kept |

## Left out

- Setup and teardown (`async_setup`, listener registration in `async_setup_entry`, `async_unload_entry`, `hass.data` bookkeeping): host-platform lifecycle glue with no ledger logic.
- Persistence (`storage.Store`, `async_load`, `_persist`): a black-box storage helper whose writes are fire-and-forget tasks. The loaded value is the constructor's parameter, and the save that follows every store into `mapping` is not modelled.
- The transport inside `_push_code` and `_clear_code`: the 0.3 s delay, the blocking service calls carrying the configured lock entity id, the caught exception, the warning log and the failure notification. The model emits only the intended `Push` and `Clear` calls. A failed push leaves the slot recorded in the model too, because the model never rolls back.
- Async interleaving between handlers: each handler's ledger update is one atomic step, and the push of the plain-PIN handler (a detached task) is an emitted action like the service handler's awaited one.
- Dynamic typing of event fields: fields are modelled as optional strings. A missing `service_data` is the same as a missing name.
- `config_flow.py` (the setup wizard choosing the lock entity) and `www/alarmo_pin_tap.js` (front-end capture of the typed PIN that fires `alarmo_plain_pin`) are not part of this model.
- Interception of Alarmo's internal user-update path is not part of this model, because this version of the integration has no such source. The duplicate-trigger property is stated for the two listeners this version has: the plain-PIN event and the `enable_user` call, in either order (`Handlers.PlainPinThenEnableAllocatesOnce`, `Handlers.EnableThenPlainPinAllocatesOnce`).
