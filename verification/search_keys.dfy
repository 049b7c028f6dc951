/** Keyboard navigation in the search results (the `keydown` handler of
    `initializeSearch` in script.js). The selected index survives a new set
    of results, so it is checked against the current number of result items
    on every key. */
module SearchKeys {

  datatype Key = ArrowDown | ArrowUp | Enter | Escape | OtherKey

  /** What the key does besides moving the selection. */
  datatype Action = NoAction | Highlight(selected: int) | Activate(item: nat) | HideResults

  datatype Selection = Selection(index: int, action: Action)

  /** One key press with `n` result items on screen. */
  function KeyDown(index: int, n: nat, key: Key): (r: Selection)
    ensures key == ArrowDown ==> r.index == (if index + 1 <= n - 1 then index + 1 else n - 1)
    ensures key == ArrowUp ==> r.index == (if index - 1 >= -1 then index - 1 else -1)
    ensures key == Escape ==> r == Selection(-1, HideResults)
    ensures r.action.Activate? <==> key == Enter && 0 <= index < n
    ensures r.action.Activate? ==> r.action.item == index && r.index == index
    ensures key in {Enter, OtherKey} ==> r.index == index
  {
    match key
    case ArrowDown =>
      var i := if index + 1 <= n - 1 then index + 1 else n - 1;
      Selection(i, Highlight(i))
    case ArrowUp =>
      var i := if index - 1 >= -1 then index - 1 else -1;
      Selection(i, Highlight(i))
    case Enter =>
      if 0 <= index < n then Selection(index, Activate(index)) else Selection(index, NoAction)
    case Escape => Selection(-1, HideResults)
    case OtherKey => Selection(index, NoAction)
  }

  /** The selection never drops below -1, ArrowDown never goes past the last
      item, and a non-negative selection after ArrowDown names an item. */
  lemma {:induction false} SelectionBounds(index: int, n: nat, key: Key)
    requires index >= -1
    ensures KeyDown(index, n, key).index >= -1
    ensures key == ArrowDown ==> KeyDown(index, n, key).index < n
  {
  }

  /** ArrowUp after ArrowDown returns to where it started, unless the list
      was empty or the selection was already on the last item. */
  lemma DownThenUp(index: int, n: nat)
    requires -1 <= index < n - 1
    ensures KeyDown(KeyDown(index, n, ArrowDown).index, n, ArrowUp).index == index
  {
  }

  /** `updateSelection(items, index)`: item `i` is active exactly when it is
      the selected one. */
  function UpdateSelection(n: nat, index: int): (active: seq<bool>)
    ensures |active| == n
    ensures forall i :: 0 <= i < n ==> (active[i] <==> i == index)
    ensures (exists i :: 0 <= i < n && active[i]) <==> 0 <= index < n
  {
    var active := seq(n, i requires 0 <= i < n => i == index);
    assert 0 <= index < n ==> active[index];
    active
  }

  /** Any run of keys from the initial selection -1 keeps it at or above -1. */
  function Run(index: int, sizes: seq<nat>, keys: seq<Key>): (r: int)
    requires |sizes| == |keys|
    ensures index >= -1 ==> r >= -1
    decreases |keys|
  {
    if |keys| == 0 then index
    else Run(KeyDown(index, sizes[0], keys[0]).index, sizes[1..], keys[1..])
  }
}
