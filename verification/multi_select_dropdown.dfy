/**
 * The multi-select dropdown component.
 *
 * The component keeps the host's option handles, an ordered selection of
 * handles, an open flag and an optional ceiling on the number of selected
 * items. A toggle removes a selected handle where it stands or appends an
 * unselected one (if the ceiling allows), and then hands the whole selection
 * to the host callback. Membership is handle identity throughout.
 */
module MultiSelectDropdown {
  import opened Handles

  /** The component's properties. The derived equality compares the option
      values, the callback identity and the ceiling. */
  datatype Props<V> = Props(options: seq<Handle<V>>, onSelect: Callback, maxSelections: Option<nat>)

  datatype Msg<V> = Toggle(item: Handle<V>) | ToggleDropdown

  /** One call of a callback with the selection it was given. */
  datatype Emission<V> = Emission(target: Callback, selection: seq<Handle<V>>)

  /** The derived equality on props: the options compare element-wise by value
      (as `Vec<Rc<T>>` does), the callbacks by identity, the ceilings as numbers.
      Props equal as data are equal here too, and so are props whose options are
      different handles to equal values. */
  predicate PropsEqual<V(==)>(a: Props<V>, b: Props<V>)
    ensures a == b ==> PropsEqual(a, b)
    ensures PropsEqual(a, b) ==> |a.options| == |b.options| && a.onSelect == b.onSelect
  {
    && |a.options| == |b.options|
    && (forall i :: 0 <= i < |a.options| ==> a.options[i].value == b.options[i].value)
    && a.onSelect == b.onSelect
    && a.maxSelections == b.maxSelections
  }

  /** The ceiling, if any, leaves room for one more selected item. */
  predicate HasRoom<V>(selection: seq<Handle<V>>, maxSelections: Option<nat>) {
    maxSelections.None? || |selection| < maxSelections.value
  }

  /** What every reachable selection satisfies: no handle twice, and no more
      handles than the ceiling. */
  predicate SelectionInvariant<V>(selection: seq<Handle<V>>, maxSelections: Option<nat>) {
    Distinct(selection) && (maxSelections.Some? ==> |selection| <= maxSelections.value)
  }

  /** The selection after `Msg::Toggle(h)`. */
  function Toggled<V>(selection: seq<Handle<V>>, h: Handle<V>, maxSelections: Option<nat>): (r: seq<Handle<V>>)
    ensures |r| == if Position(selection, h).Some? then |selection| - 1
                   else if HasRoom(selection, maxSelections) then |selection| + 1
                   else |selection|
    ensures maxSelections.Some? && |selection| <= maxSelections.value ==> |r| <= maxSelections.value
  {
    match Position(selection, h)
    case Some(i) => selection[..i] + selection[i + 1..]
    case None => if HasRoom(selection, maxSelections) then selection + [h] else selection
  }

  /** Deselecting removes the one occurrence of `h` and keeps the others in order. */
  lemma ToggleSelectedRemoves<V>(selection: seq<Handle<V>>, h: Handle<V>, maxSelections: Option<nat>)
    requires Distinct(selection) && Contains(selection, h)
    ensures Toggled(selection, h, maxSelections) == Without(selection, h)
    ensures |Toggled(selection, h, maxSelections)| == |selection| - 1
  {
    var i := Position(selection, h).value;
    RemoveAtPositionIsWithout(selection, h, i);
    WithoutDistinct(selection, h);
  }

  /** Selecting appends `h` at the end when the ceiling allows it and otherwise
      leaves the selection as it was; `h` is not checked against the options. */
  lemma ToggleUnselectedAppends<V>(selection: seq<Handle<V>>, h: Handle<V>, maxSelections: Option<nat>)
    requires !Contains(selection, h)
    ensures Toggled(selection, h, maxSelections)
         == if HasRoom(selection, maxSelections) then selection + [h] else selection
  {
  }

  /** After a toggle, `x` is selected exactly when it was selected before and is
      not the toggled handle, or it is the toggled handle, was not selected and
      the ceiling had room. */
  lemma ToggledMembership<V>(selection: seq<Handle<V>>, h: Handle<V>, maxSelections: Option<nat>, x: Handle<V>)
    requires Distinct(selection)
    ensures Contains(Toggled(selection, h, maxSelections), x)
        <==> if SameHandle(x, h) then !Contains(selection, h) && HasRoom(selection, maxSelections)
             else Contains(selection, x)
  {
    if Contains(selection, h) {
      ToggleSelectedRemoves(selection, h, maxSelections);
      WithoutContains(selection, h, x);
    } else if HasRoom(selection, maxSelections) {
      AppendContains(selection, h, x);
    }
  }

  lemma AppendContains<V>(s: seq<Handle<V>>, h: Handle<V>, x: Handle<V>)
    ensures Contains(s + [h], x) == (Contains(s, x) || SameHandle(h, x))
  {
    assert forall j :: 0 <= j < |s| ==> (s + [h])[j] == s[j];
    assert (s + [h])[|s|] == h;
  }

  /** A toggle keeps the selection free of duplicates and within the ceiling. */
  lemma ToggledKeepsInvariant<V>(selection: seq<Handle<V>>, h: Handle<V>, maxSelections: Option<nat>)
    requires SelectionInvariant(selection, maxSelections)
    ensures SelectionInvariant(Toggled(selection, h, maxSelections), maxSelections)
  {
  }

  /** Toggling a handle that is not selected twice gives back the selection it
      started from, whether or not the ceiling let it in. */
  lemma ToggleTwiceRestores<V>(selection: seq<Handle<V>>, h: Handle<V>, maxSelections: Option<nat>)
    requires !Contains(selection, h)
    ensures Toggled(Toggled(selection, h, maxSelections), h, maxSelections) == selection
  {
    if HasRoom(selection, maxSelections) {
      var s := selection + [h];
      assert forall j :: 0 <= j < |selection| ==> s[j] == selection[j];
      assert s[|selection|] == h;
      assert Position(s, h) == Some(|selection|);
      assert s[..|selection|] == selection;
    }
  }

  /** Toggling a selected handle twice does not restore the order: the handle
      comes back at the end. */
  lemma ToggleSelectedTwiceMovesToEnd<V>(selection: seq<Handle<V>>, h: Handle<V>, maxSelections: Option<nat>)
    requires SelectionInvariant(selection, maxSelections) && Contains(selection, h)
    ensures Toggled(Toggled(selection, h, maxSelections), h, maxSelections) == Without(selection, h) + [h]
  {
    ToggleSelectedRemoves(selection, h, maxSelections);
    WithoutContains(selection, h, h);
  }

  /** The selection after a whole run of toggles. */
  function ToggleAll<V>(selection: seq<Handle<V>>, hs: seq<Handle<V>>, maxSelections: Option<nat>): (r: seq<Handle<V>>)
    ensures maxSelections.Some? && |selection| <= maxSelections.value ==> |r| <= maxSelections.value
    decreases |hs|
  {
    if hs == [] then selection
    else ToggleAll(Toggled(selection, hs[0], maxSelections), hs[1..], maxSelections)
  }

  /** No run of toggles ever takes the selection above the ceiling or puts a
      handle in it twice. */
  lemma {:induction false} ToggleAllKeepsInvariant<V>(selection: seq<Handle<V>>, hs: seq<Handle<V>>, maxSelections: Option<nat>)
    requires SelectionInvariant(selection, maxSelections)
    ensures SelectionInvariant(ToggleAll(selection, hs, maxSelections), maxSelections)
    decreases |hs|
  {
    if hs != [] {
      ToggledKeepsInvariant(selection, hs[0], maxSelections);
      ToggleAllKeepsInvariant(Toggled(selection, hs[0], maxSelections), hs[1..], maxSelections);
    }
  }

  /** The rendering of one option: its handle and whether it carries the
      "selected" tag. */
  datatype ItemView<V> = ItemView(item: Handle<V>, selected: bool)

  /** What the component renders: the open flag, the button caption and the
      option items handed to the layout (none while closed). */
  datatype MultiSelectView<V> = MultiSelectView(isOpen: bool, buttonLabel: string, items: seq<ItemView<V>>)

  /** The option items in option order, each tagged when its handle is selected. */
  function ItemViews<V>(options: seq<Handle<V>>, selection: seq<Handle<V>>): (r: seq<ItemView<V>>)
    ensures |r| == |options|
    ensures forall i :: 0 <= i < |r| ==> r[i].item == options[i]
    ensures forall i :: 0 <= i < |r| ==>
              (r[i].selected <==> exists j :: 0 <= j < |selection| && SameHandle(selection[j], options[i]))
  {
    if options == [] then []
    else [ItemView(options[0], Contains(selection, options[0]))] + ItemViews(options[1..], selection)
  }

  function ViewOf<V>(options: seq<Handle<V>>, selection: seq<Handle<V>>, isOpen: bool): (v: MultiSelectView<V>)
    ensures v.isOpen == isOpen
    ensures v.buttonLabel == if isOpen then "Close" else "Open"
    ensures !isOpen ==> v.items == []
    ensures isOpen ==> |v.items| == |options|
    ensures isOpen ==> forall i :: 0 <= i < |options| ==>
              v.items[i].item == options[i] && (v.items[i].selected <==> Contains(selection, options[i]))
  {
    MultiSelectView(isOpen, if isOpen then "Close" else "Open",
                    if isOpen then ItemViews(options, selection) else [])
  }

  /** Toggling an option flips its own tag in the rendering and no other tag,
      unless the ceiling turns the selection down. */
  lemma ToggleFlipsOneTag<V>(options: seq<Handle<V>>, selection: seq<Handle<V>>, h: Handle<V>,
                             maxSelections: Option<nat>, k: nat)
    requires Distinct(selection) && k < |options|
    requires Contains(selection, h) || HasRoom(selection, maxSelections)
    ensures ViewOf(options, Toggled(selection, h, maxSelections), true).items[k].selected
         == if SameHandle(options[k], h) then !ViewOf(options, selection, true).items[k].selected
            else ViewOf(options, selection, true).items[k].selected
  {
    ToggledMembership(selection, h, maxSelections, options[k]);
  }

  class MultiSelectDropdown<V(==)> {
    var props: Props<V>
    var options: seq<Handle<V>>
    var selectedOptions: seq<Handle<V>>
    var onSelect: Callback
    var maxSelections: Option<nat>
    var isOpen: bool
    /** Every call of the callback so far, oldest first. */
    ghost var emitted: seq<Emission<V>>

    ghost predicate Valid()
      reads this
    {
      options == props.options && SelectionInvariant(selectedOptions, maxSelections)
    }

    /** `create`: nothing selected, closed, everything else copied from the props. */
    constructor (p: Props<V>)
      ensures Valid()
      ensures props == p && options == p.options && onSelect == p.onSelect && maxSelections == p.maxSelections
      ensures selectedOptions == [] && !isOpen && emitted == []
    {
      options := p.options;
      selectedOptions := [];
      props := p;
      onSelect := p.onSelect;
      maxSelections := p.maxSelections;
      isOpen := false;
      emitted := [];
    }

    /** `changed`: the props now held by the context (`newProps`) replace the
        stored props and options when they differ by value. The selection, the
        callback and the ceiling stay. */
    method Changed(newProps: Props<V>) returns (rerender: bool)
      requires Valid()
      modifies this
      ensures Valid()
      ensures rerender == !PropsEqual(old(props), newProps)
      ensures rerender ==> props == newProps && options == newProps.options
      ensures !rerender ==> props == old(props) && options == old(options)
      ensures selectedOptions == old(selectedOptions) && onSelect == old(onSelect)
      ensures maxSelections == old(maxSelections) && isOpen == old(isOpen) && emitted == old(emitted)
    {
      if !PropsEqual(props, newProps) {
        props := newProps;
        options := newProps.options;
        rerender := true;
      } else {
        rerender := false;
      }
    }

    /** `update`: a toggle changes the selection and emits the whole of it once;
        opening or closing changes only the open flag and emits nothing. */
    method Update(msg: Msg<V>) returns (rerender: bool)
      requires Valid()
      modifies this
      ensures Valid() && rerender
      ensures props == old(props) && options == old(options)
      ensures onSelect == old(onSelect) && maxSelections == old(maxSelections)
      ensures msg.Toggle? ==>
                && selectedOptions == Toggled(old(selectedOptions), msg.item, maxSelections)
                && emitted == old(emitted) + [Emission(onSelect, selectedOptions)]
                && isOpen == old(isOpen)
      ensures msg.ToggleDropdown? ==>
                && isOpen == !old(isOpen)
                && selectedOptions == old(selectedOptions)
                && emitted == old(emitted)
    {
      match msg {
        case Toggle(option) =>
          ToggledKeepsInvariant(selectedOptions, option, maxSelections);
          var index := FindPosition(selectedOptions, option);
          if index.Some? {
            selectedOptions := selectedOptions[..index.value] + selectedOptions[index.value + 1..];
          } else if maxSelections.Some? {
            if |selectedOptions| < maxSelections.value {
              selectedOptions := selectedOptions + [option];
            }
          } else {
            selectedOptions := selectedOptions + [option];
          }
          emitted := emitted + [Emission(onSelect, selectedOptions)];
        case ToggleDropdown =>
          isOpen := !isOpen;
      }
      rerender := true;
    }

    /** `view`: the button, and while open every option tagged by membership. */
    function View(): (v: MultiSelectView<V>)
      reads this
      ensures v.isOpen == isOpen
      ensures !isOpen ==> v.items == []
      ensures isOpen ==> |v.items| == |options| && forall i :: 0 <= i < |options| ==>
                v.items[i].item == options[i] && (v.items[i].selected <==> Contains(selectedOptions, options[i]))
    {
      ViewOf(options, selectedOptions, isOpen)
    }
  }

  /** The four toggles of `CeilingScenario`, on the selection alone. */
  lemma CeilingScenarioSteps(a: Handle<int>, b: Handle<int>, c: Handle<int>)
    requires a == Handle(1, 10) && b == Handle(2, 20) && c == Handle(3, 30)
    ensures Toggled([], a, Some(2)) == [a]
    ensures Toggled([a], b, Some(2)) == [a, b]
    ensures Toggled([a, b], c, Some(2)) == [a, b]
    ensures Toggled([a, b], a, Some(2)) == [b]
  {
    assert Position([a], b) == None;
    assert Position([a, b], c) == None;
    assert Position([a, b], a) == Some(0);
  }

  /** Three options, a ceiling of two: select A, B, then C (turned down), then
      deselect A. */
  method CeilingScenario() returns (selection: seq<Handle<int>>)
    ensures selection == [Handle(2, 20)]
  {
    var a, b, c := Handle(1, 10), Handle(2, 20), Handle(3, 30);
    CeilingScenarioSteps(a, b, c);
    var d := new MultiSelectDropdown(Props([a, b, c], Callback(0), Some(2)));
    var _ := d.Update(ToggleDropdown);
    var _ := d.Update(Toggle(a));
    var _ := d.Update(Toggle(b));
    var _ := d.Update(Toggle(c));
    var _ := d.Update(Toggle(a));
    assert d.emitted == [Emission(Callback(0), [a]), Emission(Callback(0), [a, b]),
                         Emission(Callback(0), [a, b]), Emission(Callback(0), [b])];
    selection := d.selectedOptions;
  }
}
