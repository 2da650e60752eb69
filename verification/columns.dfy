/** Column labels in bijective base 26: 0 -> "A", 25 -> "Z", 26 -> "AA", ...
    `Colonne` and `InvColonne` are the reference definitions; the two methods
    follow the source's loops and are proved to compute them.
 */
module Columns {

  predicate IsUpper(c: char)
  {
    'A' <= c <= 'Z'
  }

  predicate IsLabel(s: string)
  {
    forall k :: 0 <= k < |s| ==> IsUpper(s[k])
  }

  function Letter(r: int): (c: char)
    requires 0 <= r < 26
    ensures IsUpper(c) && c as int - 'A' as int == r
  {
    ('A' as int + r) as char
  }

  /** The label of column x: empty exactly when x is negative, otherwise a
      non-empty string of capital letters. */
  function Colonne(x: int): (s: string)
    ensures |s| > 0 <==> x >= 0
    ensures IsLabel(s)
    decreases if x < 0 then 0 else x + 1
  {
    if x < 0 then "" else Colonne(x / 26 - 1) + [Letter(x % 26)]
  }

  /** The value a letter contributes: 'A' -> 1, ..., 'Z' -> 26. */
  function DigitValue(c: char): int
  {
    c as int - 'A' as int + 1
  }

  /** Horner evaluation of the letters, left to right, as the source's loop. */
  function Horner(s: string): int
  {
    if |s| == 0 then 0 else Horner(s[..|s| - 1]) * 26 + DigitValue(s[|s| - 1])
  }

  /** The column a label names; the empty label gives -1. */
  function InvColonne(s: string): int
  {
    Horner(s) - 1
  }

  /** A non-empty label evaluates to a positive number. */
  lemma {:induction false} HornerPositive(s: string)
    requires IsLabel(s) && |s| > 0
    ensures Horner(s) >= 1
  {
    var t := s[..|s| - 1];
    if |t| > 0 {
      assert IsLabel(t) by {
        forall k | 0 <= k < |t| ensures IsUpper(t[k]) {
          assert t[k] == s[k];
        }
      }
      HornerPositive(t);
    }
  }

  /** Parsing a printed label gives the column back; every negative column
      prints as the empty label, which parses as -1. */
  lemma {:induction false} InvColonneOfColonne(x: int)
    ensures InvColonne(Colonne(x)) == if x < 0 then -1 else x
    decreases if x < 0 then 0 else x + 1
  {
    if x >= 0 {
      var q := x / 26 - 1;
      var s := Colonne(x);
      assert s[..|s| - 1] == Colonne(q);
      InvColonneOfColonne(q);
      assert Horner(Colonne(q)) == q + 1;
    }
  }

  /** Printing a parsed label gives the label back, for every non-empty
      string of capital letters. */
  lemma {:induction false} ColonneOfInvColonne(s: string)
    requires IsLabel(s) && |s| > 0
    ensures Colonne(InvColonne(s)) == s
  {
    var t := s[..|s| - 1];
    var d := DigitValue(s[|s| - 1]);
    var x := InvColonne(s);
    assert x == Horner(t) * 26 + (d - 1);
    assert x / 26 == Horner(t) && x % 26 == d - 1;
    assert Letter(d - 1) == s[|s| - 1];
    if |t| == 0 {
      assert Colonne(x / 26 - 1) == "";
    } else {
      assert IsLabel(t) by {
        forall k | 0 <= k < |t| ensures IsUpper(t[k]) {
          assert t[k] == s[k];
        }
      }
      HornerPositive(t);
      ColonneOfInvColonne(t);
    }
    assert s == t + [s[|s| - 1]];
  }

  /** Labels are distinct: different columns never share a label. */
  lemma ColonneInjective(x1: nat, x2: nat)
    requires Colonne(x1) == Colonne(x2)
    ensures x1 == x2
  {
    InvColonneOfColonne(x1);
    InvColonneOfColonne(x2);
  }

  /** Fixed points of the scheme. The source's doc comment gives 12 -> "L"
      and 36 -> "AJ"; the code yields "M" and "AK". */
  lemma ColonneExamples()
    ensures Colonne(0) == "A" && Colonne(25) == "Z" && Colonne(26) == "AA"
    ensures Colonne(12) == "M" && Colonne(36) == "AK" && Colonne(701) == "ZZ"
    ensures Colonne(702) == "AAA"
  {
    assert Colonne(-1) == "";
    assert Colonne(0) == "A";
    assert Colonne(25) == "Z";
    assert Colonne(26) == "AA";
    assert Colonne(12) == "M";
    assert Colonne(36) == "AK";
    assert Colonne(701) == Colonne(25) + "Z";
    assert Colonne(702) == Colonne(26) + "A";
  }

  /** The source's `colonne`: repeatedly peel the last letter and prepend it. */
  method ColonneLoop(x0: int) returns (rtr: string)
    ensures rtr == Colonne(x0)
    ensures |rtr| > 0 <==> x0 >= 0
  {
    rtr := "";
    var x := x0;
    while x >= 0
      invariant Colonne(x) + rtr == Colonne(x0)
      decreases if x < 0 then 0 else x + 1
    {
      var r := x % 26;
      rtr := [Letter(r)] + rtr;
      x := x / 26 - 1;
    }
  }

  /** The source's `invColonne`: one Horner step per character, then minus one. */
  method InvColonneLoop(s: string) returns (n: int)
    ensures n == InvColonne(s)
    ensures IsLabel(s) && |s| > 0 ==> Colonne(n) == s
  {
    n := 0;
    var k := 0;
    while k < |s|
      invariant 0 <= k <= |s|
      invariant n == Horner(s[..k])
    {
      assert s[..k + 1][..k] == s[..k];
      n := n * 26 + DigitValue(s[k]);
      k := k + 1;
    }
    assert s[..|s|] == s;
    n := n - 1;
    if IsLabel(s) && |s| > 0 {
      ColonneOfInvColonne(s);
    }
  }
}
