/** The time-ordered views shared by every tree: an in-place sort of the collected contacts,
    newest first, by one of the two timestamps. */
module TimeViews {
  import opened Contacts

  datatype TimeField = DateAdded | LastActivity

  /** The sort key of a contact: the chosen timestamp, or 0 when it is missing. */
  function Key(c: Contact, f: TimeField): int {
    var t := if f == DateAdded then c.dateAdded else c.lastActivity;
    if t.Some? then t.value else 0
  }

  ghost predicate Descending(s: seq<Contact>, f: TimeField) {
    forall p, q :: 0 <= p < q < |s| ==> Key(s[p], f) >= Key(s[q], f)
  }

  /** Exchanges the neighbours at `j - 1` and `j`. */
  method SwapDown(a: array<Contact>, j: int)
    requires 0 < j < a.Length
    modifies a
    ensures a[..] == old(a[..])[j - 1 := old(a[j])][j := old(a[j - 1])]
    ensures multiset(a[..]) == old(multiset(a[..]))
  {
    a[j - 1], a[j] := a[j], a[j - 1];
  }

  /** The keys of `a[..n]` are in descending order, except possibly at position `hole`. */
  ghost predicate DescendingBut(a: seq<Contact>, n: int, hole: int, f: TimeField)
    requires n <= |a|
  {
    forall p, q :: 0 <= p < q < n && p != hole && q != hole ==> Key(a[p], f) >= Key(a[q], f)
  }

  /** Sorts `a` in place so that larger keys come first (the comparator `key(b) - key(a)`). */
  method SortDescending(a: array<Contact>, f: TimeField)
    modifies a
    ensures Descending(a[..], f)
    ensures multiset(a[..]) == old(multiset(a[..]))
  {
    var i := 0;
    while i < a.Length
      invariant 0 <= i <= a.Length
      invariant DescendingBut(a[..], i, -1, f)
      invariant multiset(a[..]) == old(multiset(a[..]))
    {
      SinkDown(a, i, f);
      i := i + 1;
    }
  }

  /** Moves `a[i]` down past every earlier element with a smaller key, so that the keys of
      `a[..i + 1]` descend once those of `a[..i]` do. */
  method SinkDown(a: array<Contact>, i: int, f: TimeField)
    requires 0 <= i < a.Length && DescendingBut(a[..], i, -1, f)
    modifies a
    ensures DescendingBut(a[..], i + 1, -1, f)
    ensures multiset(a[..]) == old(multiset(a[..]))
  {
    var j := i;
    while j > 0 && Key(a[j - 1], f) < Key(a[j], f)
      invariant 0 <= j <= i
      invariant DescendingBut(a[..], i + 1, j, f)
      invariant forall q :: j < q <= i ==> Key(a[j], f) > Key(a[q], f)
      invariant multiset(a[..]) == old(multiset(a[..]))
    {
      label step:
      SwapDown(a, j);
      SwapKeeps(old@step(a[..]), a[..], i, j, f);
      j := j - 1;
    }
  }

  /** One exchange of the sinking element with a smaller-keyed neighbour keeps the loop's
      picture: all but the hole descend, and the hole's key exceeds everything after it. */
  lemma SwapKeeps(s: seq<Contact>, s': seq<Contact>, i: int, j: int, f: TimeField)
    requires 0 < j <= i < |s| && s' == s[j - 1 := s[j]][j := s[j - 1]]
    requires DescendingBut(s, i + 1, j, f) && Key(s[j - 1], f) < Key(s[j], f)
    requires forall q :: j < q <= i ==> Key(s[j], f) > Key(s[q], f)
    ensures DescendingBut(s', i + 1, j - 1, f)
    ensures forall q :: j - 1 < q <= i ==> Key(s'[j - 1], f) > Key(s'[q], f)
  {
  }

  /** Copies a traversal into a fresh array, sorts it, and returns the sorted contents. */
  method SortedCopy(contacts: seq<Contact>, f: TimeField) returns (r: seq<Contact>)
    ensures Descending(r, f)
    ensures multiset(r) == multiset(contacts)
  {
    var a := new Contact[|contacts|](i requires 0 <= i < |contacts| => contacts[i]);
    assert a[..] == contacts;
    SortDescending(a, f);
    r := a[..];
  }
}
