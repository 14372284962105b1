/** The favourites list of the viewer's root component: the load from storage, the
    id-keyed toggle and the parity law that a run of toggles obeys. */
module Favorites {
  import opened Options
  import opened Seqs
  import opened Comics

  /** The list read at start-up, `JSON.parse(localStorage.getItem('favorites')) || []`;
      `slot` is what the storage key holds, None when the key is absent. */
  function Load(slot: Option<seq<Comic>>): (r: seq<Comic>)
    ensures slot.None? ==> r == []
    ensures slot.Some? ==> r == slot.value
  {
    slot.GetOr([])
  }

  /** The filter predicate `x => x.id !== id`. */
  function NotId(id: int): Comic -> bool
  {
    (x: Comic) => x.id != id
  }

  /** `list.filter(x => x.id !== id)`: every entry carrying `id` goes, the rest keep their order
      and their multiplicity. */
  function RemoveId(list: seq<Comic>, id: int): (r: seq<Comic>)
    ensures !HasId(r, id)
    ensures forall j :: j != id ==> (HasId(r, j) <==> HasId(list, j))
  {
    FilterKeepsOtherIds(list, id);
    Filter(list, NotId(id))
  }

  lemma FilterKeepsOtherIds(list: seq<Comic>, id: int)
    ensures forall j :: j != id ==> (HasId(Filter(list, NotId(id)), j) <==> HasId(list, j))
  {
    forall j | j != id
      ensures HasId(Filter(list, NotId(id)), j) <==> HasId(list, j)
    {
      HasIdByElement(list, j);
      HasIdByElement(Filter(list, NotId(id)), j);
    }
  }

  /** `toggleFavorite`: drop every entry with the comic's id if there is one, else append the comic. */
  function Toggle(list: seq<Comic>, c: Comic): (r: seq<Comic>)
    ensures HasId(r, c.id) <==> !HasId(list, c.id)
    ensures !HasId(list, c.id) ==> r == list + [c]
  {
    if HasId(list, c.id) then RemoveId(list, c.id)
    else
      assert (list + [c])[|list|] == c;
      list + [c]
  }

  /** Toggling a comic whose id is present removes every entry with that id and keeps the
      others, with their multiplicity, in their original relative order. */
  lemma ToggleRemovesEveryCopy(list: seq<Comic>, c: Comic)
    requires HasId(list, c.id)
    ensures IsSubseq(Toggle(list, c), list)
    ensures forall x :: multiset(Toggle(list, c))[x] == if x.id == c.id then 0 else multiset(list)[x]
  {
    FilterIsSubseq(list, NotId(c.id));
    FilterCount(list, NotId(c.id));
  }

  /** Toggling a comic in and straight back out restores the list exactly. */
  lemma ToggleTwiceRestores(list: seq<Comic>, c: Comic)
    requires !HasId(list, c.id)
    ensures Toggle(Toggle(list, c), c) == list
  {
    FilterConcat(list, [c], NotId(c.id));
    FilterKeepsAll(list, NotId(c.id));
    assert Filter([c], NotId(c.id)) == [];
  }

  /** The list after the user toggles `cs[0]`, then `cs[1]`, and so on. */
  function ToggleAll(list: seq<Comic>, cs: seq<Comic>): seq<Comic>
    decreases |cs|
  {
    if |cs| == 0 then list else ToggleAll(Toggle(list, cs[0]), cs[1..])
  }

  /** How many of `cs` carry `id`. */
  function CountId(cs: seq<Comic>, id: int): nat
    decreases |cs|
  {
    if |cs| == 0 then 0 else (if cs[0].id == id then 1 else 0) + CountId(cs[1..], id)
  }

  /** A single toggle flips membership of its own id and of no other. */
  lemma ToggleFlips(list: seq<Comic>, c: Comic, id: int)
    ensures HasId(Toggle(list, c), id) == (HasId(list, id) != (c.id == id))
  {
    if !HasId(list, c.id) && id != c.id {
      HasIdConcat(list, [c], id);
    }
  }

  /** A toggle leaves the membership of every other id as it was. */
  lemma ToggleKeepsOtherIds(list: seq<Comic>, c: Comic)
    ensures forall j :: j != c.id ==> (HasId(Toggle(list, c), j) <==> HasId(list, j))
  {
    forall j | j != c.id
      ensures HasId(Toggle(list, c), j) <==> HasId(list, j)
    {
      ToggleFlips(list, c, j);
    }
  }

  lemma ParityStep(n: nat, flip: bool)
    ensures (((if flip then 1 else 0) + n) % 2 == 1) == ((n % 2 == 1) != flip)
  {
  }

  /** After any run of toggles an id is a favourite exactly when it started as one and was
      toggled an even number of times, or started absent and was toggled an odd number. */
  lemma {:induction false} ToggleAllParity(list: seq<Comic>, cs: seq<Comic>, id: int)
    ensures HasId(ToggleAll(list, cs), id) == (HasId(list, id) != (CountId(cs, id) % 2 == 1))
    decreases |cs|
  {
    if |cs| > 0 {
      var t := Toggle(list, cs[0]);
      ToggleFlips(list, cs[0], id);
      ToggleAllParity(t, cs[1..], id);
      ParityStep(CountId(cs[1..], id), cs[0].id == id);
    }
  }
}
