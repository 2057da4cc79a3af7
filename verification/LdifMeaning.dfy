/** Base64 and LDIF by the letter: the rules of RFC 1341 and RFC 2849 that the code follows. */
module LdifMeaning {
  import opened Bytes
  import opened TextLines
  import opened Base64
  import opened Ldif
  import opened LdifOrder

  // ------------------------------------------------------------------- base64

  /** The alphabet of section 5.2 of RFC 1341. */
  function Alphabet(v: nat): char
    requires v < 64
  {
    if v < 26 then "ABCDEFGHIJKLMNOPQRSTUVWXYZ"[v]
    else if v < 52 then "abcdefghijklmnopqrstuvwxyz"[v - 26]
    else "0123456789+/"[v - 52]
  }

  lemma LetterIs(v: nat)
    requires v < 64
    ensures Letter(v) as char == Alphabet(v)
  {
    if v < 26 {
      Capital(v);
    } else if v < 52 {
      Small(v - 26);
    }
  }

  lemma Capital(v: nat)
    requires v < 26
    ensures "ABCDEFGHIJKLMNOPQRSTUVWXYZ"[v] == (0x41 + v) as char
  {
  }

  lemma Small(v: nat)
    requires v < 26
    ensures "abcdefghijklmnopqrstuvwxyz"[v] == (0x61 + v) as char
  {
  }

  lemma Bits(a: byte, b: byte, c: byte)
    ensures var d0, d1, d2, d3 := a / 4, a % 4 * 16 + b / 16, b % 16 * 4 + c / 64, c % 64;
            && d0 < 64 && d1 < 64 && d2 < 64 && d3 < 64
            && 0x1_0000 * a as int + 0x100 * b as int + c as int
               == 0x4_0000 * d0 as int + 0x1000 * d1 as int + 64 * d2 as int + d3 as int
  {
  }

  /** Three bytes are four letters: the same number, in base 256 and in base 64. */
  lemma ThreeBytes(x: seq<byte>) returns (d: seq<nat>)
    requires |x| == 3
    ensures |d| == 4 && forall k :: 0 <= k < 4 ==> d[k] < 64 && Group(x)[k] as char == Alphabet(d[k])
    ensures 0x1_0000 * x[0] as int + 0x100 * x[1] as int + x[2] as int
         == 0x4_0000 * d[0] + 0x1000 * d[1] + 64 * d[2] + d[3]
  {
    hide Letter, Alphabet;
    var a, b, c := x[0], x[1], x[2];
    Bits(a, b, c);
    d := [a / 4, a % 4 * 16 + b / 16, b % 16 * 4 + c / 64, c % 64];
    LetterIs(d[0]);
    LetterIs(d[1]);
    LetterIs(d[2]);
    LetterIs(d[3]);
  }

  /** One or two bytes at the end are filled up with zero bits, and the group with the padding. */
  lemma LastBytes(x: seq<byte>) returns (d: seq<nat>)
    requires |x| == 1 || |x| == 2
    ensures |d| == |x| + 1 && forall k :: 0 <= k < |d| ==> d[k] < 64 && Group(x)[k] as char == Alphabet(d[k])
    ensures |x| == 1 ==> Group(x)[2..] == Text("==") && 16 * x[0] as int == 64 * d[0] + d[1]
    ensures |x| == 2 ==> Group(x)[3..] == Text("=")
                         && 4 * (0x100 * x[0] as int + x[1] as int) == 0x1000 * d[0] + 64 * d[1] + d[2]
  {
    hide Letter, Alphabet;
    var a, b := x[0], if |x| > 1 then x[1] else 0;
    Bits(a, b, 0);
    d := [a / 4, a % 4 * 16 + b / 16] + if |x| == 1 then [] else [b % 16 * 4];
    LetterIs(d[0]);
    LetterIs(d[1]);
    if |x| == 2 {
      LetterIs(d[2]);
    }
    assert Text("=") == [0x3d] && Text("==") == [0x3d, 0x3d];
  }

  /** Every third byte begins a group of its own. */
  lemma {:induction false} GroupAt(x: seq<byte>, k: nat)
    ensures |Groups(x)| == 4 * ((|x| + 2) / 3)
    ensures 3 * k < |x| ==>
              && 4 * k + 4 <= |Groups(x)|
              && Groups(x)[4 * k..4 * k + 4] == Group(x[3 * k..if 3 * k + 3 < |x| then 3 * k + 3 else |x|])
    decreases |x|
  {
    hide Group;
    if |x| > 3 {
      GroupAt(x[3..], if k > 0 then k - 1 else 0);
      FirstOfGroups(x);
      if k > 0 && 3 * k < |x| {
        var to := if 3 * k < |x[3..]| then 3 * k else |x[3..]|;
        assert x[3..][3 * (k - 1)..to] == x[3 * k..to + 3];
        GroupsShift(Group(x[..3]), Groups(x[3..]), 4 * (k - 1));
      }
    } else if x != [] {
      assert x[0..|x|] == x;
    }
  }

  lemma FirstOfGroups(x: seq<byte>)
    requires |x| > 3
    ensures Groups(x) == Group(x[..3]) + Groups(x[3..]) && Groups(x)[0..4] == Group(x[..3]) && x[0..3] == x[..3]
  {
    GroupOfThree(x);
    hide Group, Groups;
    GroupsHead(Group(x[..3]), Groups(x[3..]));
  }

  lemma NoPadding(igroup: seq<byte>, n: nat)
    requires |igroup| == 3 && n > 3
    ensures Padded(igroup, n) == Padded(igroup, 3)
  {
    hide Letter;
  }

  lemma GroupOfThree(x: seq<byte>)
    requires |x| > 3
    ensures Group(x) == Group(x[..3]) && Groups(x) == Group(x) + Groups(x[3..])
  {
    hide Padded;
    var y := x[..3];
    assert y[0] == x[0] && y[1] == x[1] && y[2] == x[2];
    NoPadding([x[0], x[1], x[2]], |x|);
    assert Groups(x) == Group(x) + Groups(x[3..]);
  }

  lemma GroupsHead(a: seq<byte>, b: seq<byte>)
    requires |a| == 4
    ensures (a + b)[0..4] == a
  {
  }

  lemma GroupsShift(a: seq<byte>, b: seq<byte>, at: nat)
    requires |a| == 4 && at + 4 <= |b|
    ensures (a + b)[4 + at..8 + at] == b[at..at + 4]
  {
  }

  lemma FoldedCons(s: seq<byte>)
    ensures |s| > 72 ==> Fold72(s) == s[..72] + [0x0a, 0x20] + Fold72(s[72..])
    ensures |s| <= 72 ==> Fold72(s) == s
  {
  }

  lemma Places(a: seq<byte>, b: seq<byte>, k: nat)
    requires |a| == 72
    ensures var s := a + [0x0a, 0x20] + b;
            && |s| == 74 + |b| && (k < 72 ==> s[k] == a[k]) && s[72] == 0x0a && s[73] == 0x20
            && (k < |b| ==> s[74 + k] == b[k])
  {
  }

  lemma LinesBefore(k: nat)
    ensures (k < 72 ==> k / 72 == 0) && (k >= 72 ==> k / 72 == (k - 72) / 72 + 1)
  {
  }

  /** A folded text has its characters in order, with two more in front of each line but the first. */
  lemma {:induction false} FoldedAt(s: seq<byte>, k: nat)
    ensures |Fold72(s)| == |s| + if s == [] then 0 else 2 * ((|s| - 1) / 72)
    ensures k < |s| ==> k + 2 * (k / 72) < |Fold72(s)| && Fold72(s)[k + 2 * (k / 72)] == s[k]
    decreases |s|
  {
    hide Fold72;
    FoldedCons(s);
    LinesBefore(k);
    if |s| > 72 {
      var rest := s[72..];
      LinesBefore(|s| - 1);
      FoldedAt(rest, if k >= 72 then k - 72 else 0);
      Places(s[..72], Fold72(rest), if k < 72 then k else k - 72 + 2 * ((k - 72) / 72));
    } else if s != [] {
      LinesBefore(|s| - 1);
    }
  }

  /** These two are a line end and a blank. */
  lemma {:induction false} FoldedBreak(s: seq<byte>, line: nat)
    requires line > 0 && 72 * line < |s|
    ensures 74 * line <= |Fold72(s)| && Fold72(s)[74 * line - 2] == 0x0a && Fold72(s)[74 * line - 1] == 0x20
    decreases line
  {
    hide Fold72;
    FoldedCons(s);
    var rest := s[72..];
    Places(s[..72], Fold72(rest), 0);
    if line > 1 {
      FoldedBreak(rest, line - 1);
      Places(s[..72], Fold72(rest), 74 * (line - 1) - 2);
      Places(s[..72], Fold72(rest), 74 * (line - 1) - 1);
    }
  }

  // --------------------------------------------------------------------- ldif

  lemma Spelled()
    ensures DN == Text("dn") && OBJECT_CLASS == Text("objectClass") && PERSON == Text("inetOrgPerson")
  {
  }

  /** A record begins at a line with a dn that is not coded. */
  lemma BeginsRecord(line: seq<byte>)
    ensures IsDn(line) <==> |line| >= 4 && line[..4] == Text("dn: ")
  {
    if |line| >= 4 {
      assert line[..4] == [line[0], line[1], line[2], line[3]];
    }
  }

  /** SAFE-CHAR of RFC 2849. */
  predicate SafeChar(c: byte) {
    0x01 <= c <= 0x09 || 0x0b <= c <= 0x0c || 0x0e <= c <= 0x7f
  }

  /** SAFE-INIT-CHAR of RFC 2849. */
  predicate SafeInitChar(c: byte) {
    0x01 <= c <= 0x09 || 0x0b <= c <= 0x0c || 0x0e <= c <= 0x1f || 0x21 <= c <= 0x39 || c == 0x3b || 0x3d <= c <= 0x7f
  }

  /** SAFE-STRING of RFC 2849. */
  predicate SafeString(s: seq<byte>) {
    s == [] || (SafeInitChar(s[0]) && forall k :: 1 <= k < |s| ==> SafeChar(s[k]))
  }

  /** Exactly what is no SAFE-STRING is encoded. */
  lemma EncodedExactly(s: seq<byte>)
    ensures NeedsEncoding(s) <==> !SafeString(s)
    ensures SafeString(s) ==> LdifData(s) == Text(": ") + s
    ensures !SafeString(s) ==> LdifData(s) == Text(":: ") + Encoded(s)
  {
    hide Encoded;
    assert Text(": ") == [0x3a, 0x20] && Text(":: ") == [0x3a, 0x3a, 0x20];
    forall k | 0 <= k < |s| ensures Unsafe(s[k]) <==> !SafeChar(s[k]) {
    }
    if !NeedsEncoding(s) && s != [] {
      assert !Unsafe(s[0]);
    }
    if SafeString(s) && s != [] {
      assert SafeChar(s[0]);
    }
  }

  // -------------------------------------------------------------------- order

  /** Where two names first differ, the one with the smaller byte comes first, or the one that ends there. */
  lemma {:induction false} BeforeExactly(a: seq<byte>, b: seq<byte>)
    ensures Before(a, b) <==>
              exists k :: 0 <= k <= |a| && k < |b| && a[..k] == b[..k] && (k == |a| || a[k] < b[k])
    decreases |a|
  {
    if b == [] {
    } else if a == [] {
      assert a[..0] == b[..0];
    } else if a[0] != b[0] {
      assert a[..0] == b[..0];
      forall k | 0 < k <= |a| && k < |b| ensures a[..k] != b[..k] {
        assert a[..k][0] == a[0] && b[..k][0] == b[0];
      }
    } else {
      var c, d := a[1..], b[1..];
      BeforeExactly(c, d);
      if k :| 0 <= k <= |c| && k < |d| && c[..k] == d[..k] && (k == |c| || c[k] < d[k]) {
        assert a[..k + 1] == [a[0]] + c[..k] && b[..k + 1] == [b[0]] + d[..k];
      }
      if k :| 0 <= k <= |a| && k < |b| && a[..k] == b[..k] && (k == |a| || a[k] < b[k]) {
        assert k > 0;
        assert c[..k - 1] == a[..k][1..] && d[..k - 1] == b[..k][1..];
      }
    }
  }
}
