/** The page's exam dropdown: every offering name of every supplier with
    an offering list is added to a JavaScript `Set`, and the set's elements,
    sorted, become the options after the fixed "all exams" entry. */
module ExamDropdown {
  import opened Wrappers
  import opened Records
  import Seqs
  import Sorting

  /** Supplier `f` has an offering list with an offering named `name`. */
  ghost predicate Provides(f: Supplier, name: string) {
    f.servicos.Some? && exists k :: 0 <= k < |f.servicos.value| && f.servicos.value[k].servico == name
  }

  /** Some supplier in `records` offers a service named `name`. */
  ghost predicate Offered(records: seq<Supplier>, name: string) {
    exists i :: 0 <= i < |records| && Provides(records[i], name)
  }

  /** `Set.prototype.add` on a set held as its insertion-ordered element
      list: a new name goes to the end, a known one changes nothing. */
  function AddName(acc: seq<string>, name: string): (r: seq<string>)
    ensures Seqs.NoDuplicates(acc) ==> Seqs.NoDuplicates(r)
    ensures forall x :: x in r <==> x in acc || x == name
    ensures acc <= r
  {
    if name in acc then acc else acc + [name]
  }

  /** `f.servicos.forEach(s => examesSet.add(s.servico))`. */
  function AddOfferings(acc: seq<string>, offerings: seq<Offering>): (r: seq<string>)
    ensures Seqs.NoDuplicates(acc) ==> Seqs.NoDuplicates(r)
    ensures forall x :: x in r <==> x in acc || exists k :: 0 <= k < |offerings| && offerings[k].servico == x
    decreases |offerings|
  {
    if |offerings| == 0 then acc
    else
      var n := |offerings| - 1;
      var front := offerings[..n];
      assert forall k :: 0 <= k < n ==> front[k] == offerings[k];
      AddName(AddOfferings(acc, front), offerings[n].servico)
  }

  /** `examesSet` after the loop over all suppliers, in insertion order:
      suppliers without an offering list add nothing. */
  function CollectNames(records: seq<Supplier>): (names: seq<string>)
    ensures Seqs.NoDuplicates(names)
    ensures forall x :: x in names <==> Offered(records, x)
    decreases |records|
  {
    if |records| == 0 then []
    else
      var n := |records| - 1;
      var front := records[..n];
      var acc := CollectNames(front);
      assert forall i :: 0 <= i < n ==> front[i] == records[i];
      match records[n].servicos
      case None => acc
      case Some(offerings) => AddOfferings(acc, offerings)
  }

  /** `[...examesSet].sort()`: the option values, strictly ascending (so
      without duplicates), covering exactly the offered service names. */
  function ExamOptions(records: seq<Supplier>): (options: seq<string>)
    ensures Sorting.StrictlySorted(options)
    ensures Seqs.NoDuplicates(options)
    ensures forall x :: x in options <==> Offered(records, x)
  {
    var names := CollectNames(records);
    var options := Sorting.Sort(names);
    Seqs.PermutationKeepsNoDuplicates(names, options);
    Sorting.StrictWhenNoDuplicates(options);
    assert forall x :: x in options <==> x in multiset(names);
    options
  }

  /** The options depend only on which names are offered: not on the order
      of the suppliers, of their offerings, or on repeated names. */
  lemma ExamOptionsDependOnlyOnNames(r1: seq<Supplier>, r2: seq<Supplier>)
    requires forall x :: Offered(r1, x) <==> Offered(r2, x)
    ensures ExamOptions(r1) == ExamOptions(r2)
  {
    Sorting.StrictlySortedUnique(ExamOptions(r1), ExamOptions(r2));
  }
}
