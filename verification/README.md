# Rainfrog dropdowns, modelled in Dafny

This project models the two stateful widgets of the rainfrog component
library for yew:

- The **multi-select dropdown**. It keeps the host's option handles, an
  ordered list of selected handles, an open/closed flag and an optional
  ceiling on the number of selections. Clicking an option toggles it: a
  selected handle is removed where it stands, and an unselected one is appended
  at the end if the ceiling allows. After every toggle, the whole selection is
  passed to the host callback.
- The **single-select dropdown**. It keeps the option handles, the index of
  the selected option and an open/closed flag. Selecting an offered handle
  records its first position, passes the handle to the callback and closes the
  list.

Items are shared `Rc` handles. They are modelled as `Handle(addr, value)`.
Both components compare handles by identity (`Rc::ptr_eq`), which here means
comparing `addr`. Only the derived equality on the multi-select props compares
the values. Each component is a class whose fields match the Rust struct.
`update` and `changed` are methods. A ghost field `emitted` records every
callback invocation, together with the callback it went to. `view` is a pure
function that returns a view model. That view model holds the open flag, the
items in option order with their "selected" tag, and the selected text.

Files:
- `handles.dfy` (module `Handles`): handles, `ptr_eq`, the `position` and
  `any` searches, and a filtering reference definition for removal.
- `multi_select_dropdown.dfy` (module `MultiSelectDropdown`): the toggle rule
  `Toggled` and its lemmas, the view model, and the component class.
- `dropdown.dfy` (module `Dropdown`): the view model and the component class,
  including the repaired `changed` described under Findings.

Four behaviours of the code shape the model:
- Membership is `Rc::ptr_eq`, not value equality
  (src/multi_select_dropdown.rs:84, :108; src/dropdown.rs:40).
- The multi-select's `changed` never touches `selected_options`
  (src/multi_select_dropdown.rs:71-79). Handles the host no longer offers
  stay selected and are emitted with the next toggle.
- The multi-select's `changed` stores the new props but never refreshes
  `on_select` or `max_selections` (src/multi_select_dropdown.rs:71-79).
  Toggles keep emitting to the callback captured at creation, under the
  ceiling from creation.
- Since yew 0.20, the framework stores new props in the component's context
  before it calls `changed`, and passes `changed` the props of the previous
  render. The multi-select reads `ctx.props()`, so it sees the new props. The
  single-select copies from its `props` argument (src/dropdown.rs:54-56), so
  its options and callback lag one change behind (see Findings).

## Model

| member | source | states |
|---|---|---|
| `Handles.SameHandle` | src/multi_select_dropdown.rs:84 | `Rc::ptr_eq`: compares allocations, not values; every handle is ptr-equal to itself |
| `Handles.Position` | src/multi_select_dropdown.rs:84 | the result is the first index holding a handle ptr-equal to `h` (no earlier index holds one); it is none exactly when no element is ptr-equal to `h` |
| `Handles.Contains` | src/multi_select_dropdown.rs:108 | true exactly when some element is ptr-equal to `h` |
| `Handles.FindPosition` | src/dropdown.rs:40 | the loop that scans the options returns the first ptr-equal position, or none |
| `Handles.WithoutContains` | src/multi_select_dropdown.rs:84-85 | filtering out `h` keeps exactly the handles of the other allocations |
| `Handles.WithoutDistinct` | src/multi_select_dropdown.rs:84-85 | in a duplicate-free list, filtering out `h` keeps the list duplicate-free and removes one element when `h` occurs, none otherwise |
| `Handles.RemoveAtPositionIsWithout` | src/multi_select_dropdown.rs:84-85 | in a duplicate-free list, `remove(position of h)` equals filtering `h` out, so the others keep their relative order |
| `MultiSelectDropdown.PropsEqual` | src/multi_select_dropdown.rs:35-40 | the derived `PartialEq` compared at line 72: options element-wise by value, callback by identity, ceiling by number; identical props are equal, and equal props have equally long options and the same callback |
| `MultiSelectDropdown.Toggled` | src/multi_select_dropdown.rs:84-94 | the selection after `Toggle(h)`: one element shorter when `h` was selected, one longer when it was not and the ceiling had room, otherwise the same length; never above a ceiling it started within |
| `MultiSelectDropdown.ToggleSelectedRemoves` | src/multi_select_dropdown.rs:84-85 | toggling a selected handle removes exactly that occurrence, and the remaining handles keep their order |
| `MultiSelectDropdown.ToggleUnselectedAppends` | src/multi_select_dropdown.rs:86-94 | toggling an unselected handle appends it at the end when there is no ceiling or the length is below it, and otherwise leaves the selection unchanged; the options play no part |
| `MultiSelectDropdown.ToggledMembership` | src/multi_select_dropdown.rs:83-94 | after a toggle, `x` is selected iff it is the toggled handle, was unselected and had room, or it is another handle that was already selected |
| `MultiSelectDropdown.ToggledKeepsInvariant` | src/multi_select_dropdown.rs:84-94 | a toggle keeps the selection free of duplicate handles and no longer than the ceiling |
| `MultiSelectDropdown.ToggleAll` | src/multi_select_dropdown.rs:81-97 | the selection after a run of `Toggle` messages; never above a ceiling it started within |
| `MultiSelectDropdown.ToggleAllKeepsInvariant` | src/multi_select_dropdown.rs:81-97 | no sequence of toggles takes the selection above the ceiling or duplicates a handle |
| `MultiSelectDropdown.ToggleTwiceRestores` | src/multi_select_dropdown.rs:84-94 | toggling an unselected handle twice restores the original selection, whether or not the ceiling let it in |
| `MultiSelectDropdown.ToggleSelectedTwiceMovesToEnd` | src/multi_select_dropdown.rs:84-94 | toggling a selected handle twice moves it to the end of the selection, so the order is not restored |
| `MultiSelectDropdown.ItemViews` | src/multi_select_dropdown.rs:107-117 | one rendered item per option, in option order, tagged "selected" iff some selected handle is ptr-equal to the option |
| `MultiSelectDropdown.ViewOf` | src/multi_select_dropdown.rs:119-131 | the button says "Close" when open and "Open" when closed; no items are laid out while closed, and while open every option is laid out with its membership tag |
| `MultiSelectDropdown.ToggleFlipsOneTag` | src/multi_select_dropdown.rs:107-109 | a toggle that is not turned down by the ceiling flips the tag of the toggled option and no other tag |
| `MultiSelectDropdown.MultiSelectDropdown.constructor` | src/multi_select_dropdown.rs:60-69 | `create` starts with an empty selection, closed and with no emissions; options, props, callback and ceiling are copied from the props |
| `MultiSelectDropdown.MultiSelectDropdown.Changed` | src/multi_select_dropdown.rs:71-79 | returns true iff the new props differ by value; only then are props and options replaced; the selection, callback, ceiling and open flag never change; the invariant is kept |
| `MultiSelectDropdown.MultiSelectDropdown.Update` | src/multi_select_dropdown.rs:81-103 | `Toggle(h)` sets the selection to the toggle rule and emits the full new selection once to the stored callback, even when the ceiling turned `h` down; `ToggleDropdown` negates the open flag, keeps the selection and emits nothing; the ceiling and duplicate-free invariant hold afterwards |
| `MultiSelectDropdown.MultiSelectDropdown.View` | src/multi_select_dropdown.rs:106-132 | the rendered state: no items while closed; while open, each option is tagged iff it is in the current selection |
| `MultiSelectDropdown.CeilingScenario` | src/multi_select_dropdown.rs:83-97 | with options A, B, C and a ceiling of 2, toggling A, B, C, A emits [A], [A,B], [A,B], [B] and leaves [B] selected |
| `Dropdown.ViewOf` | src/dropdown.rs:60-94 | the placeholder when no index is recorded; otherwise the option at the index; the options are listed only while open; an index past the end panics |
| `Dropdown.Relocated` | src/dropdown.rs:54-58 | the repaired index is always in range for the new options; it names the old selected handle when that handle is still offered, and is none otherwise |
| `Dropdown.RelocatedRenders` | src/dropdown.rs:61-64 | after the repaired `changed`, rendering never panics and shows the previously selected handle when it is still offered |
| `Dropdown.Dropdown.constructor` | src/dropdown.rs:28-35 | `create` records no index, is closed and copies options and callback; the context holds the props |
| `Dropdown.Dropdown.Update` | src/dropdown.rs:37-52 | `Select(h)` with `h` offered records its first ptr-equal position, which is in range, emits `h` once and closes; with `h` not offered it changes nothing and emits nothing; `Toggle` negates only the open flag; every update keeps an in-range index in range |
| `Dropdown.Dropdown.Changed` | src/dropdown.rs:54-58 | the context takes the new props; options and callback are taken from the props of the previous render; always returns true; keeps the recorded index and the open flag |
| `Dropdown.Dropdown.ChangedKeepingSelection` | src/dropdown.rs:54-58 | the repaired `changed`: takes options and callback from the new props, and leaves the index in range by following the selected handle into the new options |
| `Dropdown.Dropdown.View` | src/dropdown.rs:60-94 | renders iff the recorded index is in range; shows the selected option or the placeholder; lists the options only while open |
| `Dropdown.StaleIndexScenario` | src/dropdown.rs:54-64 | with options A, B and B selected, the host passes [A]: the component still renders B; the host then passes [C]: the options become [A] and rendering indexes 1 of a one-element list |
| `Dropdown.RepairedScenario` | src/dropdown.rs:54-64 | the same events with the repaired `changed` render the placeholder after both changes |

## Findings

| source | as written | input that shows it | evidently intended | confidence | as-written member | corrected member |
|---|---|---|---|---|---|---|
| src/dropdown.rs:54-56 | `changed` copies options and callback from its `props` argument, which is the props of the previous render | options [A, B] with B selected; the host passes [A]; the component keeps [A, B] and still shows B | options and callback follow the props the host just passed | not executed | `Dropdown.Dropdown.Changed`, `Dropdown.StaleIndexScenario` | `Dropdown.Dropdown.ChangedKeepingSelection`, `Dropdown.RepairedScenario` |
| src/dropdown.rs:54-62 | `changed` keeps `selected_index`; `view` then evaluates `self.options[*selected]` without a bounds check | options [A, B]; `Select(B)` records index 1; the host passes [A], then [C]; at the second change the options become [A], and `view` indexes 1 in a one-element vector and panics | the recorded index always names one of the current options (follow the selected handle, or clear the selection) | not executed | `Dropdown.Dropdown.Changed`, `Dropdown.StaleIndexScenario` | `Dropdown.Dropdown.ChangedKeepingSelection`, `Dropdown.RelocatedRenders`, `Dropdown.RepairedScenario` |

## Left out

- The yew `Html` tree, CSS class strings and the `onclick` wiring. The view model keeps only the open flag, the button caption, the "selected" tag and the handles. The handle stands for the `Toggle`/`Select` message a click would send.
- `ListLayout` and `GridLayout` (src/multi_select_dropdown.rs:13-33). They only wrap the item list in a container, so the model passes the item list through unchanged.
- `T::render` and the item display traits. These are foreign rendering hooks, so items are opaque handles.
- `Callback::emit`, the call into host code. It is replaced by appending to the ghost emission log.
- The item type's own `PartialEq`, used by the derived props equality. It is taken to be Dafny equality on the item value.
- `usize` widths. Lengths, indices and the ceiling are `nat`, because a vector cannot be long enough to overflow them.
- The yew component link. Of the `Context`, only the props it holds are modelled. The multi-select's `Changed` receives them as its argument. The single-select keeps them in the field `ctxProps`, because its `changed` reads the previous props instead.
- src/table.rs, src/rainfrog_logger.rs and src/string_display.rs are not part of this model. They are stateless rendering, a console bridge and a display wrapper.
