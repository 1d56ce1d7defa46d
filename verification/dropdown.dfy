/**
 * The single-select dropdown component.
 *
 * The component keeps the host's option handles, the index of the selected
 * option (if any) and an open flag. Selecting a handle records its first
 * position among the options, passes the handle to the host callback and
 * closes the list.
 *
 * When the host passes new props, the framework first stores them in the
 * component's context and then calls `changed` with the props of the previous
 * render. `changed` copies options and callback from those previous props, so
 * both lag one change behind, and it keeps the recorded index as it is. Once
 * the options shrink below the index, rendering indexes past their end.
 * `Changed` models that behaviour; `ChangedKeepingSelection` is the repaired
 * version, which takes the new props and keeps the index in range so that
 * rendering always succeeds.
 */
module Dropdown {
  import opened Handles

  datatype Props<V> = Props(options: seq<Handle<V>>, onSelect: Callback)

  datatype Msg<V> = Select(item: Handle<V>) | Toggle

  /** One call of a callback with the handle it was given. */
  datatype Emission<V> = Emission(target: Callback, item: Handle<V>)

  /** The text in the selection area: a placeholder, or the selected option. */
  datatype SelectedText<V> = Placeholder | Selected(item: Handle<V>)

  /** What the component renders: the open flag, the selection area and the
      option list (empty while closed). */
  datatype DropdownView<V> = DropdownView(isOpen: bool, selectedText: SelectedText<V>, items: seq<Handle<V>>)

  /** The outcome of rendering: a view, or the panic of an out-of-bounds index. */
  datatype Rendering<V> = Rendered(view: DropdownView<V>) | IndexOutOfBounds(index: nat, len: nat)

  /** The recorded index, if any, names one of `len` options. */
  predicate IndexInRange(index: Option<nat>, len: nat) {
    index.Some? ==> index.value < len
  }

  /** `view`: the selection area shows the option at the recorded index or the
      placeholder; the options are listed only while open. An index past the
      end of the options panics, whether the list is open or not. */
  function ViewOf<V>(options: seq<Handle<V>>, selectedIndex: Option<nat>, isOpen: bool): (r: Rendering<V>)
    ensures r.IndexOutOfBounds? <==> !IndexInRange(selectedIndex, |options|)
    ensures r.IndexOutOfBounds? ==> r.index == selectedIndex.value && r.len == |options|
    ensures r.Rendered? ==> r.view.isOpen == isOpen
    ensures r.Rendered? ==> (r.view.selectedText.Placeholder? <==> selectedIndex.None?)
    ensures r.Rendered? && selectedIndex.Some? ==> r.view.selectedText.item == options[selectedIndex.value]
    ensures r.Rendered? ==> r.view.items == if isOpen then options else []
  {
    match selectedIndex
    case Some(i) =>
      if i < |options| then Rendered(DropdownView(isOpen, Selected(options[i]), if isOpen then options else []))
      else IndexOutOfBounds(i, |options|)
    case None => Rendered(DropdownView(isOpen, Placeholder, if isOpen then options else []))
  }

  /** Where the handle selected in `oldOptions` stands in `newOptions`, if it
      is still offered there; the repaired `changed` records this index. */
  function Relocated<V>(oldOptions: seq<Handle<V>>, selectedIndex: Option<nat>, newOptions: seq<Handle<V>>): (r: Option<nat>)
    ensures IndexInRange(r, |newOptions|)
    ensures r.Some? ==> selectedIndex.Some? && selectedIndex.value < |oldOptions|
                        && SameHandle(newOptions[r.value], oldOptions[selectedIndex.value])
    ensures (selectedIndex.Some? && selectedIndex.value < |oldOptions|
             && Contains(newOptions, oldOptions[selectedIndex.value])) ==> r.Some?
  {
    match selectedIndex
    case Some(i) => if i < |oldOptions| then Position(newOptions, oldOptions[i]) else None
    case None => None
  }

  /** With the repaired `changed`, rendering never panics and still shows the
      previously selected option when it is still offered. */
  lemma RelocatedRenders<V>(oldOptions: seq<Handle<V>>, selectedIndex: Option<nat>, newOptions: seq<Handle<V>>, isOpen: bool)
    requires IndexInRange(selectedIndex, |oldOptions|)
    ensures ViewOf(newOptions, Relocated(oldOptions, selectedIndex, newOptions), isOpen).Rendered?
    ensures selectedIndex.Some? && Contains(newOptions, oldOptions[selectedIndex.value]) ==>
              SameHandle(ViewOf(newOptions, Relocated(oldOptions, selectedIndex, newOptions), isOpen).view.selectedText.item,
                         oldOptions[selectedIndex.value])
  {
  }

  class Dropdown<V> {
    /** The props held by the component's context: the latest ones the host passed. */
    var ctxProps: Props<V>
    var options: seq<Handle<V>>
    var selectedIndex: Option<nat>
    var onSelect: Callback
    var isOpen: bool
    /** Every call of the callback so far, oldest first. */
    ghost var emitted: seq<Emission<V>>

    /** The recorded index names one of the current options. */
    ghost predicate IndexValid()
      reads this
    {
      IndexInRange(selectedIndex, |options|)
    }

    /** `create`: no selection, closed, options and callback from the props. */
    constructor (p: Props<V>)
      ensures IndexValid()
      ensures ctxProps == p && options == p.options && onSelect == p.onSelect
      ensures selectedIndex == None && !isOpen && emitted == []
    {
      ctxProps := p;
      options := p.options;
      selectedIndex := None;
      onSelect := p.onSelect;
      isOpen := false;
      emitted := [];
    }

    /** `update`: selecting an offered handle records its first position, emits
        it once and closes; selecting any other handle changes nothing. Toggling
        flips only the open flag. Every update keeps a valid index valid. */
    method Update(msg: Msg<V>) returns (rerender: bool)
      modifies this
      ensures rerender
      ensures ctxProps == old(ctxProps) && options == old(options) && onSelect == old(onSelect)
      ensures old(IndexValid()) ==> IndexValid()
      ensures msg.Select? && Position(options, msg.item).Some? ==>
                && selectedIndex == Position(options, msg.item)
                && IndexValid()
                && emitted == old(emitted) + [Emission(onSelect, msg.item)]
                && !isOpen
      ensures msg.Select? && Position(options, msg.item).None? ==>
                selectedIndex == old(selectedIndex) && emitted == old(emitted) && isOpen == old(isOpen)
      ensures msg.Toggle? ==>
                isOpen == !old(isOpen) && selectedIndex == old(selectedIndex) && emitted == old(emitted)
    {
      match msg {
        case Select(option) =>
          var index := FindPosition(options, option);
          if index.Some? {
            selectedIndex := index;
            emitted := emitted + [Emission(onSelect, option)];
            isOpen := false;
          }
        case Toggle =>
          isOpen := !isOpen;
      }
      rerender := true;
    }

    /** `changed` as written. The context now holds `newProps`, but options and
        callback are copied from the props of the previous render, which is
        what the framework hands to `changed`. The recorded index is kept even
        when it no longer names an option. */
    method Changed(newProps: Props<V>) returns (rerender: bool)
      modifies this
      ensures rerender
      ensures ctxProps == newProps
      ensures options == old(ctxProps).options && onSelect == old(ctxProps).onSelect
      ensures selectedIndex == old(selectedIndex) && isOpen == old(isOpen) && emitted == old(emitted)
    {
      var previous := ctxProps;
      ctxProps := newProps;
      options := previous.options;
      onSelect := previous.onSelect;
      rerender := true;
    }

    /** `changed` repaired: options and callback come from the new props, and
        the recorded index follows the selected handle into the new options, or
        is cleared when that handle is no longer offered. */
    method ChangedKeepingSelection(newProps: Props<V>) returns (rerender: bool)
      requires IndexValid()
      modifies this
      ensures rerender && IndexValid()
      ensures ctxProps == newProps && options == newProps.options && onSelect == newProps.onSelect
      ensures selectedIndex == Relocated(old(options), old(selectedIndex), newProps.options)
      ensures isOpen == old(isOpen) && emitted == old(emitted)
    {
      var index: Option<nat> := None;
      if selectedIndex.Some? {
        index := FindPosition(newProps.options, options[selectedIndex.value]);
      }
      ctxProps := newProps;
      options := newProps.options;
      onSelect := newProps.onSelect;
      selectedIndex := index;
      rerender := true;
    }

    /** `view`, with the panic of an out-of-range index made explicit. */
    function View(): (r: Rendering<V>)
      reads this
      ensures r.Rendered? <==> IndexInRange(selectedIndex, |options|)
      ensures r.Rendered? ==> r.view.isOpen == isOpen && r.view.items == (if isOpen then options else [])
      ensures r.Rendered? && selectedIndex.Some? ==> r.view.selectedText == Selected(options[selectedIndex.value])
      ensures r.Rendered? && selectedIndex.None? ==> r.view.selectedText == Placeholder
    {
      ViewOf(options, selectedIndex, isOpen)
    }
  }

  /** Two options, the second selected, then the host withdraws it and later
      passes a third list. After the first change the component still renders
      the withdrawn option; after the second its kept index is past the end of
      the options and rendering panics. */
  method StaleIndexScenario() returns (first: Rendering<int>, second: Rendering<int>)
    ensures first == Rendered(DropdownView(false, Selected(Handle(2, 20)), []))
    ensures second == IndexOutOfBounds(1, 1)
  {
    var a, b, c := Handle(1, 10), Handle(2, 20), Handle(3, 30);
    var d := new Dropdown(Props([a, b], Callback(0)));
    var _ := d.Update(Select(b));
    assert Position([a, b], b) == Some(1);
    var _ := d.Changed(Props([a], Callback(0)));
    first := d.View();
    var _ := d.Changed(Props([c], Callback(0)));
    second := d.View();
  }

  /** The same events with the repaired `changed`: the withdrawn option is
      deselected at the first change and the placeholder is shown throughout. */
  method RepairedScenario() returns (first: Rendering<int>, second: Rendering<int>)
    ensures first == Rendered(DropdownView(false, Placeholder, []))
    ensures second == Rendered(DropdownView(false, Placeholder, []))
  {
    var a, b, c := Handle(1, 10), Handle(2, 20), Handle(3, 30);
    var d := new Dropdown(Props([a, b], Callback(0)));
    var _ := d.Update(Select(b));
    assert Position([a, b], b) == Some(1);
    var _ := d.ChangedKeepingSelection(Props([a], Callback(0)));
    assert Position([a], b) == None;
    first := d.View();
    var _ := d.ChangedKeepingSelection(Props([c], Callback(0)));
    second := d.View();
  }
}
