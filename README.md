# RAF result formatting, modelled in Dafny

This project models the result-formatting layer of a risk-adjustment (RAF)
microservice. A CMS-HCC V28 engine returns a raw result: a total score, a
flat `code -> coefficient` table, the list of condition categories (HCCs)
found, a map from each HCC to the diagnosis codes behind it, and flags for
interaction terms. The layer in `app/utils.py` does three things:

- It sanitises that result into a tree of dicts, lists and scalars.
- It splits the coefficient table into three labelled groups: interactions,
  conditions (`hcc`) and demographics.
- It assembles the response.

Modules:

- `Wrappers` (`wrappers.dfy`): `Option` and `Result`.
- `Json` (`json.dfy`): Python values as a datatype `Value`. A dict is its
  entries in insertion order. A set is its elements in iteration order. A
  structured record (a Pydantic model) is the list of fields its dump gives.
  `Sanitize` is `sanitize_for_JSON`.
- `Labels` (`labels.dfy`): the `coefficient_labels` table. It has one map
  per group and a fallback label per group.
- `Seqs` (`seqs.dfy`): subsequences and order-keeping removal of a key set.
- `CoefficientBreakdown` (`breakdown.dfy`): `make_coefficient_breakdown`.
  The caller's coefficient dict is a class, `CoefficientTable`, holding its
  keys in insertion order and its values. `MakeCoefficientBreakdown`
  modifies that object in place, as the Python function deletes from the
  dict it is given. Each of its four loops is its own method:
  - collect the interactions;
  - collect the conditions;
  - delete the recorded keys;
  - collect what is left as demographics.
  
  Each of these is proved against specification functions
  (`InteractionEntries`, `HccEntries`, `DemographicEntries`, `Classify`).
  The lemmas about those functions state what the groups contain.
- `Response` (`response.dfy`): `format_response`. `ReadFields` reads the
  score and the four breakdown arguments from the sanitised result, in the
  order Python evaluates them. A missing key is Python's `KeyError`.
  `FormatResponse` then builds a fresh `CoefficientTable` from the
  sanitised result and runs the breakdown on it.

The interaction and condition groups are not checked against each other:
a code flagged 1 that is also in the HCC list lands in both groups
(`InteractionAndHccMayShareCode`).

## Model

| member | source | states |
|---|---|---|
| `Json.Sanitize` | app/utils.py:176-189 | The result has no set and no record anywhere along nested dicts. A dict or a record becomes a dict with the same keys in the same order. A set becomes a list of the same elements in the same order. Anything else, lists included, is returned unchanged. Dict keys stay distinct. |
| `Json.SanitizeLookup` | app/utils.py:178-181 | In the sanitised dict, a key is present exactly when it was present in the original dict. Its value is the original value, sanitised. |
| `Json.SanitizeKeepsSanitized` | app/utils.py:176-189 | A value already in sanitised shape is returned unchanged. |
| `Json.SanitizeIdempotent` | app/utils.py:176-189 | Sanitising twice gives the same result as sanitising once. |
| `Labels.Label` | app/utils.py:10-173 | A code in its group's table gets that table's label. Any other code gets the group's fallback: "Unidentified Interaction", "Unidentified HCC" or "Unidentified Demographic". The lookup never fails. |
| `Labels.FallbackMeansUnknown` | app/utils.py:205-236 | A label equals its group's fallback exactly when the code is not in that group's table. |
| `CoefficientBreakdown.CoefficientTable.FromEntries` | app/utils.py:179-181 | A new dict holds the given entries: the keys in order, each with its value. |
| `CoefficientBreakdown.CoefficientTable.Delete` | app/utils.py:227-228 | `del d[k]` on a present key: only `k` leaves the dict, the other keys keep their order and values, and the keys stay distinct. |
| `CoefficientBreakdown.CollectInteractions` | app/utils.py:199-211 | The loop over the interaction flags produces exactly `InteractionEntries` for the unmodified dict. It records exactly those codes in `key_list`. |
| `CoefficientBreakdown.CollectHccs` | app/utils.py:213-223 | The loop over the HCC list produces exactly `HccEntries` for the unmodified dict. It records exactly those codes in `key_list`. |
| `CoefficientBreakdown.DeleteRecorded` | app/utils.py:224-228 | The guarded deletion loop never deletes an absent key, even when `key_list` repeats a key. Afterwards the dict has lost exactly the recorded keys. The other keys keep their order and values. |
| `CoefficientBreakdown.CollectDemographics` | app/utils.py:229-239 | The demographic group has one entry per key left in the dict, in dict order. |
| `CoefficientBreakdown.MakeCoefficientBreakdown` | app/utils.py:192-241 | The groups are `Classify` of the dict as it was on entry. On exit the caller's dict holds exactly its original keys, minus those emitted as interaction or condition entries, with unchanged values and order. |
| `CoefficientBreakdown.InteractionEntryContent` | app/utils.py:202-210 | Every interaction entry's code has a coefficient. The entry copies that coefficient unchanged and carries the interaction label or "Unidentified Interaction". |
| `CoefficientBreakdown.InteractionSelection` | app/utils.py:199-201 | A code has an interaction entry exactly when two things hold: some flag for it equals 1 (the int 1, the float 1.0 or True), and the code is a key of the coefficients. |
| `CoefficientBreakdown.InteractionOrder` | app/utils.py:199-211 | The interaction codes are a subsequence of the flag keys, so they follow the flags' iteration order. |
| `CoefficientBreakdown.InteractionCodesDistinct` | app/utils.py:199-211 | When the flags come from a dict, no code has two interaction entries. |
| `CoefficientBreakdown.HccEntryContent` | app/utils.py:215-222 | Every condition entry's code has a coefficient. The entry copies that coefficient unchanged. Its `dx` is the code's diagnosis source or "Unidentified Diagnosis Code". Its label is the HCC label or "Unidentified HCC". |
| `CoefficientBreakdown.HccMultiplicity` | app/utils.py:213-223 | A code that has a coefficient is emitted as a condition once for every time it occurs in the HCC list. A code without one is never emitted, and skipping it raises no error. |
| `CoefficientBreakdown.HccOrder` | app/utils.py:213-223 | The condition codes are a subsequence of the HCC list, so they keep the list's order. |
| `CoefficientBreakdown.HccCodesIgnoreDx` | app/utils.py:218 | The diagnosis-source map does not affect which conditions are emitted. |
| `CoefficientBreakdown.KeyListPresent` | app/utils.py:197-228 | Every code recorded in `key_list` is a key of the coefficients. So a key is missing at deletion time only because it was already deleted. |
| `CoefficientBreakdown.DemographicCodes` | app/utils.py:230-239 | The demographic codes are exactly the given keys, in the given order. |
| `CoefficientBreakdown.DemographicEntryContent` | app/utils.py:231-238 | Every demographic entry copies its key's coefficient unchanged. It carries the demographic label or "Unidentified Demographic". |
| `CoefficientBreakdown.GoneIsEmitted` | app/utils.py:211-228 | The keys deleted from the dict are exactly the interaction and condition codes emitted. |
| `CoefficientBreakdown.ClassifyPartition` | app/utils.py:224-239 | Together, the interaction, condition and demographic codes are exactly the keys of the coefficient dict. No demographic code is also an interaction or a condition. |
| `CoefficientBreakdown.ClassifyDemographics` | app/utils.py:229-239 | Demographic codes are distinct and follow the dict's insertion order. Each entry carries the original coefficient and the demographic label or its fallback. |
| `CoefficientBreakdown.ClassifyCopiesCoefficients` | app/utils.py:199-239 | In all three groups, every entry carries the coefficient its code had before any deletion, unchanged. |
| `CoefficientBreakdown.InteractionAndHccMayShareCode` | app/utils.py:199-228 | Any code that has a coefficient, is flagged 1 and is also listed in the HCC list appears in both the interaction and the condition group, and is recorded at least twice in `key_list`. |
| `Response.FormatResponse` | app/utils.py:244-256 | The result is `Format` of the input. That means: sanitise, read the score and the four breakdown arguments, or fail with the corresponding KeyError, TypeError or shape error, then classify on a coefficient dict built from the sanitised result. |
| `Response.FormatAccountsForCoefficients` | app/utils.py:244-256 | In a successful response every coefficient key of the sanitised result is in at least one group. A demographic code is in no other group. Every entry carries its coefficient unchanged. |

## Left out

- `get_v28_response` and the engine `calculate_raf` it calls (app/utils.py:259-281): the engine is a vendored library whose source is not part of this model. The model starts from the engine's result, given as a `Json.Value`.
- Score arithmetic (app/utils.py:248-249): `round(x, 3)` and the division by `NORM_FACTOR = 1.045` are floating point. `Response.Response` keeps the unrounded score as an opaque `Value`. The two score fields of the Python response are both computed from it. The model does check that the score is something `round` accepts (an int, a float or a bool) and otherwise reports `NotANumber`.
- The Pydantic `model_dump` call (app/utils.py:182-185): a record is modelled as the list of fields its dump returns. Pydantic's own conversion of nested fields is not modelled.
- `coefficient_labels` (app/utils.py:10-173): only representative entries of each table are kept. The lookups and fallbacks do not depend on the clinical text.
- `Response.ReadFields`: when a field holds another container type than the breakdown uses, the model reports `BadShape` for the first such field. In Python, whether an error is raised, and which one, depends on the data: with an empty interactions dict and an empty `hcc_list`, a wrong-typed `coefficients` is first touched by its `.keys()` call (a non-empty `hcc_list` touches it earlier, through `hcc in coefficients`), and a wrong-typed `cc_to_dx` is only touched when a condition is emitted. The engine's result type fixes these fields, so this path is not exercised there.
- `Response.ReadFields`: the model requires `hcc_list` to hold strings. For a non-string element, Python skips it silently if it is hashable and raises `TypeError` if it is not.
- Dict keys are modelled as strings; a Python dict with non-string keys is not modelled.
- Python's set iteration order is arbitrary. The model takes a set's elements in a given order, and `list(s)` keeps that order.
- `Response.FormatResponse`: aliasing is not modelled. The caller holds an immutable `Value`, so the model does not show that the sanitiser's copy of the coefficient dict is what keeps the deletions away from the caller's dict. The one mutable object in the model is the coefficient dict handed to the breakdown.
- app/main.py (HTTP routing, request schema, exceptions turned into a 400 response), app/auth.py (placeholder token check) and bootstrap.py (import path setup) are framework and I/O plumbing, not part of this model.
