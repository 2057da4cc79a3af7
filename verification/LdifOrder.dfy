/** The order in which a contact's attributes are kept and printed. */
module LdifOrder {
  import opened Bytes
  import opened Ldif

  datatype Attribute = Attribute(name: seq<byte>, order: int)

  /** std::string's order. */
  predicate Before(a: seq<byte>, b: seq<byte>) {
    b != [] && (a == [] || a[0] < b[0] || (a[0] == b[0] && Before(a[1..], b[1..])))
  }

  predicate Less(a: Attribute, b: Attribute) {
    if a.name == DN then b.name != DN
    else if b.name == DN then false
    else (a.order < b.order && a.name != b.name) || (a.order == b.order && Before(a.name, b.name))
  }

  lemma {:induction false} BeforeTotal(a: seq<byte>, b: seq<byte>)
    ensures !(Before(a, b) && Before(b, a)) && (a != b <==> Before(a, b) || Before(b, a))
    decreases |a|
  {
    if a != [] && b != [] && a[0] == b[0] {
      BeforeTotal(a[1..], b[1..]);
      assert a == [a[0]] + a[1..] && b == [b[0]] + b[1..];
    }
  }

  lemma {:induction false} BeforeTransitive(a: seq<byte>, b: seq<byte>, c: seq<byte>)
    requires Before(a, b) && Before(b, c)
    ensures Before(a, c)
    decreases |a|
  {
    if a != [] && a[0] == b[0] == c[0] {
      BeforeTransitive(a[1..], b[1..], c[1..]);
    }
  }

  /** Two attributes are the same to a map exactly if they have the same name. */
  lemma SameExactlyByName(a: Attribute, b: Attribute)
    ensures !(Less(a, b) && Less(b, a))
    ensures !Less(a, b) && !Less(b, a) <==> a.name == b.name
  {
    hide Before;
    BeforeTotal(a.name, b.name);
  }

  /** The order is transitive except when it would put an attribute before one of the same name. */
  lemma TransitiveExactly(a: Attribute, b: Attribute, c: Attribute)
    requires Less(a, b) && Less(b, c)
    ensures Less(a, c) <==> a.name != c.name
  {
    hide Before;
    BeforeTotal(a.name, c.name);
    if a.name != DN && c.name != DN && a.order == b.order == c.order {
      BeforeTransitive(a.name, b.name, c.name);
    }
  }

  /** Each attribute is less than the next one. */
  predicate Sorted(attrs: seq<Attribute>) {
    forall i :: 0 <= i < |attrs| - 1 ==> Less(attrs[i], attrs[i + 1])
  }

  /** What a map relies on: each attribute is less than every later one. */
  predicate Ascending(attrs: seq<Attribute>) {
    forall i, j :: 0 <= i < j < |attrs| ==> Less(attrs[i], attrs[j])
  }

  predicate DistinctNames(attrs: seq<Attribute>) {
    forall i, j :: 0 <= i < j < |attrs| ==> attrs[i].name != attrs[j].name
  }

  lemma {:induction false} SortedBetween(attrs: seq<Attribute>, i: nat, j: nat)
    requires Sorted(attrs) && DistinctNames(attrs) && i < j < |attrs|
    ensures Less(attrs[i], attrs[j])
    decreases j
  {
    hide Less;
    if i + 1 < j {
      SortedBetween(attrs, i, j - 1);
      assert Less(attrs[j - 1], attrs[j - 1 + 1]);
      TransitiveExactly(attrs[i], attrs[j - 1], attrs[j]);
    } else {
      assert Less(attrs[i], attrs[i + 1]);
    }
  }

  /** A list in which neighbours are in order is in order throughout exactly if no name comes twice; dn can only
   * be at its head, whatever the orders. */
  lemma InOrderExactly(attrs: seq<Attribute>)
    requires Sorted(attrs)
    ensures Ascending(attrs) <==> DistinctNames(attrs)
    ensures forall k :: 0 <= k < |attrs| && attrs[k].name == DN ==> k == 0
  {
    hide Before;
    if DistinctNames(attrs) {
      forall i, j | 0 <= i < j < |attrs| ensures Less(attrs[i], attrs[j]) {
        SortedBetween(attrs, i, j);
      }
    }
    if Ascending(attrs) {
      forall i, j | 0 <= i < j < |attrs| ensures attrs[i].name != attrs[j].name {
        SameExactlyByName(attrs[i], attrs[j]);
      }
    }
    forall k | 1 <= k < |attrs| ensures attrs[k].name != DN {
      SortedBehind(attrs, k - 1);
    }
  }

  lemma SortedBehind(attrs: seq<Attribute>, i: nat)
    requires Sorted(attrs) && i + 1 < |attrs|
    ensures attrs[i + 1].name != DN
  {
    assert Less(attrs[i], attrs[i + 1]);
  }

  lemma Inhabited(attrs: seq<Attribute>)
    ensures attrs != [] ==> exists x :: x in attrs
  {
    if attrs != [] {
      assert attrs[0] in attrs;
    }
  }

  lemma HeadIsLeast(attrs: seq<Attribute>, x: Attribute)
    requires Ascending(attrs) && x in attrs && x != attrs[0]
    ensures Less(attrs[0], x)
  {
    hide Less;
    var i :| 0 <= i < |attrs| && attrs[i] == x;
  }

  /** Attributes have only one such order, so the printed contact does not depend on how they were added. */
  lemma {:induction false} OrderDetermined(a: seq<Attribute>, b: seq<Attribute>)
    requires Ascending(a) && Ascending(b) && forall x :: x in a <==> x in b
    ensures a == b
  {
    hide Less;
    Inhabited(a);
    Inhabited(b);
    if a != [] && b != [] {
      if a[0] != b[0] {
        HeadIsLeast(a, b[0]);
        HeadIsLeast(b, a[0]);
        SameExactlyByName(a[0], b[0]);
      }
      forall x ensures x in a[1..] <==> x in b[1..] {
        NotAgain(a, x);
        NotAgain(b, x);
      }
      OrderDetermined(a[1..], b[1..]);
      assert a == [a[0]] + a[1..] && b == [b[0]] + b[1..];
    }
  }

  lemma NotAgain(attrs: seq<Attribute>, x: Attribute)
    requires Ascending(attrs) && attrs != []
    ensures x in attrs[1..] <==> x in attrs && x != attrs[0]
  {
    hide Before;
    SameExactlyByName(x, x);
    if x in attrs[1..] {
      var i :| 0 <= i < |attrs[1..]| && attrs[1..][i] == x;
      assert attrs[i + 1] == x;
    }
    if x in attrs && x != attrs[0] {
      var i :| 0 <= i < |attrs| && attrs[i] == x;
      assert attrs[1..][i - 1] == x;
    }
  }

  /** After an attribute was given another order, it can lie on both sides of a third one: a map that
   * holds the third does not find it by its name alone. */
  lemma Reordered(name: seq<byte>, other: Attribute)
    requires name != DN && other.name != DN && name != other.name
    ensures Less(Attribute(name, other.order - 1), other) && Less(other, Attribute(name, other.order + 1))
  {
  }
}
