/** The byte-wise lexicographic order of strings, and sequences strictly sorted by it. */
module StringOrder {
  // `a` and `b` agree before position `k`, and `a` ends or is smaller there.
  predicate DiffersAt(a: string, b: string, k: nat) {
    k <= |a| && k < |b| && a[..k] == b[..k] && (k == |a| || a[k] < b[k])
  }

  predicate Less(a: string, b: string) {
    exists k: nat | k < |b| :: DiffersAt(a, b, k)
  }

  // At the first difference the smaller character decides.
  lemma SmallerAtDifference(p: string, c: char, x: string, d: char, y: string)
    requires c < d
    ensures Less(p + [c] + x, p + [d] + y)
  {
    var a, b := p + [c] + x, p + [d] + y;
    assert a[..|p|] == p == b[..|p|];
    assert DiffersAt(a, b, |p|);
  }

  // A proper prefix comes first.
  lemma PrefixFirst(p: string, x: string)
    requires x != ""
    ensures Less(p, p + x)
  {
    assert p[..|p|] == (p + x)[..|p|];
    assert DiffersAt(p, p + x, |p|);
  }

  // The same for texts that are given whole.
  lemma SmallerAt(a: string, b: string, k: nat)
    requires k < |a| && k < |b| && a[..k] == b[..k] && a[k] < b[k]
    ensures Less(a, b)
  {
    SmallerAtDifference(a[..k], a[k], a[k + 1..], b[k], b[k + 1..]);
    assert a == a[..k] + [a[k]] + a[k + 1..] && b == a[..k] + [b[k]] + b[k + 1..];
  }

  lemma PrefixBefore(a: string, b: string)
    requires |a| < |b| && a == b[..|a|]
    ensures Less(a, b)
  {
    PrefixFirst(a, b[|a|..]);
    assert b == a + b[|a|..];
  }

  lemma Irreflexive(a: string)
    ensures !Less(a, a)
  {
  }

  lemma Transitive(a: string, b: string, c: string)
    requires Less(a, b) && Less(b, c)
    ensures Less(a, c)
  {
    var i: nat :| i < |b| && DiffersAt(a, b, i);
    var j: nat :| j < |c| && DiffersAt(b, c, j);
    var k := if i < j then i else j;
    assert a[..k] == a[..i][..k] == b[..i][..k] == b[..k] == b[..j][..k] == c[..j][..k] == c[..k];
    if i < j {
      assert b[i] == b[..j][i] == c[..j][i] == c[i];
    } else if j < i {
      assert a[j] == a[..i][j] == b[..i][j] == b[j];
    }
    assert DiffersAt(a, c, k);
  }

  lemma Asymmetric(a: string, b: string)
    requires Less(a, b)
    ensures !Less(b, a)
  {
  }

  lemma {:induction false} Total(a: string, b: string, k: nat)
    requires k <= |a| && k <= |b| && a[..k] == b[..k]
    ensures Less(a, b) || a == b || Less(b, a)
    decreases |a| - k
  {
    if k == |a| && k == |b| {
      assert a == a[..k] && b == b[..k];
    } else if k == |a| || (k < |b| && a[k] < b[k]) {
      assert DiffersAt(a, b, k);
    } else if k == |b| || b[k] < a[k] {
      assert DiffersAt(b, a, k);
    } else {
      assert a[..k + 1] == a[..k] + [a[k]] && b[..k + 1] == b[..k] + [b[k]];
      Total(a, b, k + 1);
    }
  }

  predicate StrictlySorted(names: seq<string>) {
    forall i, j | 0 <= i < j < |names| :: Less(names[i], names[j])
  }

  // Two strictly sorted sequences with the same members are the same.
  lemma {:induction false} SortedUnique(a: seq<string>, b: seq<string>)
    requires StrictlySorted(a) && StrictlySorted(b)
    requires forall x :: x in a <==> x in b
    ensures a == b
  {
    assert b != [] ==> b[0] in a;
    assert a != [] ==> a[0] in b;
    if a != [] {
      HeadLeast(a, b[0]);
      HeadLeast(b, a[0]);
      if a[0] != b[0] {
        Asymmetric(a[0], b[0]);
      }
      forall x ensures x in a[1..] <==> x in b[1..] {
        InTail(a, x);
        InTail(b, x);
      }
      SortedUnique(a[1..], b[1..]);
    }
  }

  lemma HeadLeast(a: seq<string>, x: string)
    requires a != [] && StrictlySorted(a)
    ensures x in a ==> x == a[0] || Less(a[0], x)
  {
  }

  lemma InTail(a: seq<string>, x: string)
    requires a != [] && StrictlySorted(a)
    ensures x in a[1..] <==> x in a && x != a[0]
  {
  }

  // The position at which `x` belongs in a strictly sorted sequence.
  function Place(names: seq<string>, x: string): (k: nat)
    requires StrictlySorted(names)
    ensures k <= |names|
    ensures forall i | 0 <= i < k :: Less(names[i], x)
    ensures forall i | k <= i < |names| :: !Less(names[i], x)
  {
    if names == [] || !Less(names[0], x) then
      assert forall i | 0 <= i < |names| && Less(names[i], x) :: i > 0 && Less(names[0], names[i]);
      assert forall i | 0 <= i < |names| :: !Less(names[i], x) by {
        if i :| 0 <= i < |names| && Less(names[i], x) {
          Transitive(names[0], names[i], x);
        }
      }
      0
    else 1 + Place(names[1..], x)
  }

  // A new member put in its place keeps the order.
  lemma PlacedSorted(names: seq<string>, x: string)
    requires StrictlySorted(names) && x !in names
    ensures var k := Place(names, x); StrictlySorted(names[..k] + [x] + names[k..])
  {
    var k := Place(names, x);
    forall i | k <= i < |names| ensures Less(x, names[i]) {
      Total(names[i], x, 0);
      assert names[i] in names;
    }
  }
}
