/** The meaning of the PPP flag filter, byte by byte, and what it guarantees.
 *
 * A PPP frame begins and ends with a flag byte 0x7e (section 3.1 of RFC 1662). The filter's whole
 * state is whether a frame is open; `closed` says it is not.
 */
module PppTransducer {
  import opened Bytes

  const FLAG: byte := 0x7e

  function Emit(closed: bool, b: byte): seq<byte> {
    if closed && b != FLAG then [FLAG, b] else [b]
  }

  function Next(closed: bool, b: byte): bool {
    if b == FLAG then !closed else false
  }

  function Filtered(closed: bool, src: seq<byte>): seq<byte>
    decreases |src|
  {
    if src == [] then [] else Emit(closed, src[0]) + Filtered(Next(closed, src[0]), src[1..])
  }

  function After(closed: bool, src: seq<byte>): bool
    decreases |src|
  {
    if src == [] then closed else After(Next(closed, src[0]), src[1..])
  }

  // ----------------------------------------------------------------- chunking

  lemma {:induction false} FilteredAppend(closed: bool, a: seq<byte>, b: seq<byte>)
    ensures Filtered(closed, a + b) == Filtered(closed, a) + Filtered(After(closed, a), b)
    ensures After(closed, a + b) == After(After(closed, a), b)
    decreases |a|
  {
    hide Emit, Next;
    if a == [] {
      assert a + b == b;
    } else {
      assert (a + b)[1..] == a[1..] + b;
      FilteredAppend(Next(closed, a[0]), a[1..], b);
    }
  }

  /** The output for a stream that arrives in pieces. */
  function FilteredPieces(closed: bool, pieces: seq<seq<byte>>): seq<byte>
    decreases |pieces|
  {
    if pieces == [] then []
    else Filtered(closed, pieces[0]) + FilteredPieces(After(closed, pieces[0]), pieces[1..])
  }

  /** However a stream is cut, the output is that of the whole stream. */
  lemma {:induction false} AnyChunking(closed: bool, pieces: seq<seq<byte>>)
    ensures FilteredPieces(closed, pieces) == Filtered(closed, Flatten(pieces))
    decreases |pieces|
  {
    if pieces != [] {
      AnyChunking(After(closed, pieces[0]), pieces[1..]);
      FilteredAppend(closed, pieces[0], Flatten(pieces[1..]));
    }
  }

  // -------------------------------------------------------------------- bound

  /** Two insertions are at least two consumed bytes apart. */
  lemma {:induction false} InsertionsAreRare(closed: bool, src: seq<byte>)
    ensures |src| <= |Filtered(closed, src)| <= |src| + (|src| + if closed then 1 else 0) / 2
    decreases |src|
  {
    if src != [] {
      InsertionsAreRare(Next(closed, src[0]), src[1..]);
    }
  }

  lemma WorstCase(closed: bool, src: seq<byte>)
    ensures |Filtered(closed, src)| <= |src| / 2 * 3 + 4
  {
    InsertionsAreRare(closed, src);
  }

  // ------------------------------------------------------------------ framing

  /** Index of the first flag, or the length. */
  function FirstFlag(s: seq<byte>): (k: nat)
    ensures k <= |s| && (forall i :: 0 <= i < k ==> s[i] != 0x7e) && (k < |s| ==> s[k] == 0x7e)
  {
    if s == [] || s[0] == 0x7e then 0 else 1 + FirstFlag(s[1..])
  }

  /** One frame after the other, each with an opening and a closing flag of its own; the last
   * one may still be open. */
  predicate Framed(s: seq<byte>)
    decreases |s|
  {
    || s == []
    || (s[0] == 0x7e &&
        var k := FirstFlag(s[1..]);
        k + 1 == |s| || Framed(s[k + 2..]))
  }

  /** The same from a given state: no data byte arrives outside a frame. */
  predicate Accepted(closed: bool, s: seq<byte>)
    decreases |s|
  {
    s == [] || ((closed ==> s[0] == FLAG) && Accepted(Next(closed, s[0]), s[1..]))
  }

  lemma {:induction false} AcceptedInFrame(s: seq<byte>)
    ensures var k := FirstFlag(s);
            Accepted(false, s) <==> (k == |s| || Accepted(true, s[k + 1..]))
  {
    if s != [] && s[0] != FLAG {
      AcceptedInFrame(s[1..]);
      var k := FirstFlag(s[1..]);
      if k < |s| - 1 {
        assert s[1..][k + 1..] == s[k + 2..];
      }
    }
  }

  lemma {:induction false} AcceptedIsFramed(s: seq<byte>)
    ensures Accepted(true, s) <==> Framed(s)
    decreases |s|
  {
    hide FirstFlag;
    if s != [] && s[0] == FLAG {
      AcceptedInFrame(s[1..]);
      var k := FirstFlag(s[1..]);
      if k + 1 < |s| {
        assert s[1..][k + 1..] == s[k + 2..];
        AcceptedIsFramed(s[k + 2..]);
      }
    }
  }

  lemma {:induction false} AcceptedAppend(closed: bool, a: seq<byte>, b: seq<byte>)
    ensures Accepted(closed, a + b) <==> Accepted(closed, a) && Accepted(After(closed, a), b)
    decreases |a|
  {
    hide Next;
    if a == [] {
      assert a + b == b;
    } else {
      assert (a + b)[1..] == a[1..] + b;
      AcceptedAppend(Next(closed, a[0]), a[1..], b);
    }
  }

  lemma EmitAccepted(closed: bool, b: byte)
    ensures Accepted(closed, Emit(closed, b)) && After(closed, Emit(closed, b)) == Next(closed, b)
  {
    var e := Emit(closed, b);
    if closed && b != FLAG {
      assert e[1..] == [b] && e[1..][1..] == [];
    } else {
      assert e[1..] == [];
    }
  }

  lemma {:induction false} OutputAccepted(closed: bool, src: seq<byte>)
    ensures Accepted(closed, Filtered(closed, src))
    ensures After(closed, Filtered(closed, src)) == After(closed, src)
    decreases |src|
  {
    hide Emit, Next;
    if src != [] {
      var rest := Filtered(Next(closed, src[0]), src[1..]);
      EmitAccepted(closed, src[0]);
      OutputAccepted(Next(closed, src[0]), src[1..]);
      AcceptedAppend(closed, Emit(closed, src[0]), rest);
      FilteredAppend(closed, Emit(closed, src[0]), rest);
    }
  }

  /** A new filter turns any stream into whole frames. */
  lemma OutputIsFramed(src: seq<byte>)
    ensures Framed(Filtered(true, src))
  {
    OutputAccepted(true, src);
    AcceptedIsFramed(Filtered(true, src));
  }

  lemma {:induction false} FixedPoints(closed: bool, s: seq<byte>)
    ensures Filtered(closed, s) == s <==> Accepted(closed, s)
    decreases |s|
  {
    if s != [] {
      var rest := Filtered(Next(closed, s[0]), s[1..]);
      FixedPoints(Next(closed, s[0]), s[1..]);
      if !closed || s[0] == FLAG {
        assert Filtered(closed, s) == [s[0]] + rest && s == [s[0]] + s[1..];
        assert Filtered(closed, s)[1..] == rest;
      } else {
        assert Filtered(closed, s)[0] == FLAG;
      }
    }
  }

  /** Correct streams pass unchanged and no others do, so filtering again changes nothing. */
  lemma Idempotent(src: seq<byte>)
    ensures Filtered(true, src) == src <==> Framed(src)
    ensures Filtered(true, Filtered(true, src)) == Filtered(true, src)
  {
    OutputAccepted(true, src);
    FixedPoints(true, src);
    FixedPoints(true, Filtered(true, src));
    AcceptedIsFramed(src);
  }

  // ------------------------------------------------- only flags, and not many

  /** `longer` is `s` with flags inserted anywhere. */
  predicate FlagsAdded(s: seq<byte>, longer: seq<byte>)
    decreases |longer|
  {
    || (s == [] && longer == [])
    || (longer != [] && longer[0] == FLAG && FlagsAdded(s, longer[1..]))
    || (longer != [] && s != [] && longer[0] == s[0] && FlagsAdded(s[1..], longer[1..]))
  }

  lemma {:induction false} OnlyFlagsAdded(closed: bool, src: seq<byte>)
    ensures FlagsAdded(src, Filtered(closed, src))
    decreases |src|
  {
    if src != [] {
      var rest := Filtered(Next(closed, src[0]), src[1..]);
      OnlyFlagsAdded(Next(closed, src[0]), src[1..]);
      assert ([src[0]] + rest)[1..] == rest;
      assert FlagsAdded(src, [src[0]] + rest);
      if closed && src[0] != FLAG {
        assert Filtered(closed, src)[1..] == [src[0]] + rest;
      }
    }
  }

  lemma {:induction false} StatesCostAtMostOne(src: seq<byte>)
    ensures |Filtered(true, src)| <= |Filtered(false, src)| + 1
    ensures |Filtered(false, src)| <= |Filtered(true, src)| + 1
  {
    if src != [] {
      StatesCostAtMostOne(src[1..]);
    }
  }

  /** No repair of the stream by inserting flags is shorter than the filter's. */
  lemma {:induction false} FewestFlags(closed: bool, src: seq<byte>, repair: seq<byte>)
    requires FlagsAdded(src, repair) && Accepted(closed, repair)
    ensures |Filtered(closed, src)| <= |repair|
    decreases |repair|
  {
    if repair != [] {
      if repair[0] == FLAG && FlagsAdded(src, repair[1..]) {
        FewestFlags(!closed, src, repair[1..]);
        StatesCostAtMostOne(src);
      } else {
        FewestFlags(Next(closed, src[0]), src[1..], repair[1..]);
      }
    }
  }
}
