/** The list item record shared by the store and the list view, and the
    sequence operations both of them use: lookup by id (the array's
    findIndex), id uniqueness, and the two-position exchange performed by a
    destructuring swap. */
module Items {

  datatype Option<T> = None | Some(value: T)

  /** One row of the list. Identity is `id`; `name` and `description` are
      display data that no operation interprets. */
  datatype ListItem = ListItem(id: int, name: string, description: string)

  /** Some item of `s` carries `id`. */
  predicate HasId(s: seq<ListItem>, id: int)
  {
    exists j :: 0 <= j < |s| && s[j].id == id
  }

  /** No two positions of `s` carry the same id. */
  predicate UniqueIds(s: seq<ListItem>)
  {
    forall i, j :: 0 <= i < j < |s| ==> s[i].id != s[j].id
  }

  /** The position of the first item whose id is `id`, or -1 when there is
      none, as `items.findIndex(item => item.id === id)` answers. */
  function FindIndex(s: seq<ListItem>, id: int): (r: int)
    ensures -1 <= r < |s|
    ensures r == -1 <==> !HasId(s, id)
    ensures r >= 0 ==> s[r].id == id && forall j :: 0 <= j < r ==> s[j].id != id
  {
    if |s| == 0 then -1
    else if s[0].id == id then 0
    else
      var r := FindIndex(s[1..], id);
      if r == -1 then -1 else r + 1
  }

  /** Under unique ids, looking up the id found at position `k` gives back `k`. */
  lemma FindIndexOfPosition(s: seq<ListItem>, k: int)
    requires UniqueIds(s) && 0 <= k < |s|
    ensures FindIndex(s, s[k].id) == k
  {
  }

  /** `s` with positions `i` and `j` exchanged: `[s[i], s[j]] = [s[j], s[i]]`. */
  function Swap(s: seq<ListItem>, i: int, j: int): (r: seq<ListItem>)
    requires 0 <= i < |s| && 0 <= j < |s|
    ensures |r| == |s| && r[i] == s[j] && r[j] == s[i]
    ensures forall m :: 0 <= m < |s| && m != i && m != j ==> r[m] == s[m]
    ensures multiset(r) == multiset(s)
  {
    s[i := s[j]][j := s[i]]
  }

  /** Exchanging two positions keeps the ids unique. */
  lemma SwapKeepsUniqueIds(s: seq<ListItem>, i: int, j: int)
    requires 0 <= i < |s| && 0 <= j < |s| && UniqueIds(s)
    ensures UniqueIds(Swap(s, i, j))
  {
  }

  /** Exchanging the same two positions twice restores the sequence. */
  lemma SwapTwice(s: seq<ListItem>, i: int, j: int)
    requires 0 <= i < |s| && 0 <= j < |s|
    ensures Swap(Swap(s, i, j), i, j) == s
  {
  }
}
