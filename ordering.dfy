/** The ordering `df.sort_values("Hora_min")` gives the analyses. Pandas does
    not promise a stable sort, so the analyses are specified for every
    ordering of the entries that is non-decreasing in start minute; the
    insertion sort below is one such ordering, the one the methods use. */
module Ordering {
  import opened Lectura

  predicate SortedByHora(s: seq<Entry>) {
    forall i, j :: 0 <= i < j < |s| ==> s[i].horaMin <= s[j].horaMin
  }

  /** `df` is an order the sort may return for `agenda`: the same entries,
      non-decreasing in start minute, ties in any order. */
  predicate IsOrderingOf(df: seq<Entry>, agenda: seq<Entry>) {
    multiset(df) == multiset(agenda) && SortedByHora(df)
  }

  lemma SortedCons(x: Entry, t: seq<Entry>)
    requires SortedByHora(t)
    requires forall y :: y in t ==> x.horaMin <= y.horaMin
    ensures SortedByHora([x] + t)
  {
    var r := [x] + t;
    forall i, j | 0 <= i < j < |r| ensures r[i].horaMin <= r[j].horaMin {
      assert r[j] == t[j - 1];
      if i > 0 {
        assert r[i] == t[i - 1];
      }
    }
  }

  function Insert(e: Entry, s: seq<Entry>): (r: seq<Entry>)
    requires SortedByHora(s)
    ensures SortedByHora(r)
    ensures forall x :: x in r ==> x == e || x in s
    ensures multiset(r) == multiset(s) + multiset{e}
  {
    if s == [] then [e]
    else if e.horaMin <= s[0].horaMin then
      SortedCons(e, s);
      [e] + s
    else
      var t := Insert(e, s[1..]);
      assert s == [s[0]] + s[1..];
      SortedCons(s[0], t);
      [s[0]] + t
  }

  /** One admissible result of the sort. */
  function SortByHora(s: seq<Entry>): (r: seq<Entry>)
    ensures IsOrderingOf(r, s)
  {
    if s == [] then []
    else
      assert s == [s[0]] + s[1..];
      Insert(s[0], SortByHora(s[1..]))
  }
}
