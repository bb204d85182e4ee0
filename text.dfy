/**
 * The string operations the client relies on: splitting a dotted name at
 * its dots as Java's `String.split("\\.")` does, joining labels with dots
 * as the `StringBuilder` in `parseName` does, and decimal rendering of the
 * octet values printed for an A record.
 */
module Text {

  /** The pieces of `s` between its dots, empty pieces included. */
  function Pieces(s: string): (r: seq<string>)
    ensures |r| >= 1
    ensures forall k :: 0 <= k < |r| ==> '.' !in r[k]
    ensures forall k, c :: 0 <= k < |r| && c in r[k] ==> c in s
  {
    if |s| == 0 then [""]
    else
      var rest := Pieces(s[1..]);
      assert forall c :: c in s[1..] ==> c in s;
      if s[0] == '.' then [""] + rest
      else [[s[0]] + rest[0]] + rest[1..]
  }

  /** The pieces joined with single dots between them. */
  function Join(ps: seq<string>): string
  {
    if |ps| == 0 then ""
    else if |ps| == 1 then ps[0]
    else ps[0] + "." + Join(ps[1..])
  }

  /** Java's `String.split("\\.")` with limit 0: a string without a dot is its
      own single piece (so `""` gives `[""]`); otherwise trailing empty pieces
      are dropped (so `"a."` gives `["a"]` and `"."` gives `[]`). */
  function JavaSplit(s: string): (r: seq<string>)
    ensures forall k :: 0 <= k < |r| ==> '.' !in r[k]
    ensures forall k, c :: 0 <= k < |r| && c in r[k] ==> c in s
  {
    if '.' !in s then [s] else DropTrailingEmpty(Pieces(s))
  }

  function DropTrailingEmpty(ps: seq<string>): (r: seq<string>)
    ensures |r| <= |ps| && r == ps[..|r|]
    ensures |r| > 0 ==> r[|r| - 1] != ""
    ensures forall k :: |r| <= k < |ps| ==> ps[k] == ""
  {
    if |ps| > 0 && ps[|ps| - 1] == "" then DropTrailingEmpty(ps[..|ps| - 1]) else ps
  }

  lemma {:induction false} JoinSnoc(ps: seq<string>, p: string)
    ensures Join(ps + [p]) == if |ps| == 0 then p else Join(ps) + "." + p
    decreases |ps|
  {
    if |ps| >= 2 {
      assert (ps + [p])[1..] == ps[1..] + [p];
      JoinSnoc(ps[1..], p);
    } else if |ps| == 1 {
      assert ps + [p] == [ps[0], p];
    }
  }

  lemma {:induction false} JoinCons(p: string, ps: seq<string>)
    requires |ps| >= 1
    ensures Join([p] + ps) == p + "." + Join(ps)
  {
    assert ([p] + ps)[1..] == ps;
  }

  /** Joining the pieces of a string restores it. */
  lemma {:induction false} JoinPieces(s: string)
    ensures Join(Pieces(s)) == s
    decreases |s|
  {
    if |s| > 0 {
      var rest := Pieces(s[1..]);
      JoinPieces(s[1..]);
      if s[0] == '.' {
        JoinCons("", rest);
        assert s == [s[0]] + s[1..];
      } else if |rest| == 1 {
        assert s == [s[0]] + s[1..];
      } else {
        JoinCons([s[0]] + rest[0], rest[1..]);
        JoinCons(rest[0], rest[1..]);
        assert rest == [rest[0]] + rest[1..];
        assert s == [s[0]] + s[1..];
      }
    }
  }

  lemma {:induction false} PiecesNoDot(a: string)
    requires '.' !in a
    ensures Pieces(a) == [a]
    decreases |a|
  {
    if |a| > 0 {
      assert '.' !in a[1..] by {
        forall k | 0 <= k < |a[1..]| ensures a[1..][k] != '.' { assert a[1..][k] == a[k + 1]; }
      }
      PiecesNoDot(a[1..]);
      assert a == [a[0]] + a[1..];
    }
  }

  lemma {:induction false} PiecesDot(a: string, t: string)
    requires '.' !in a
    ensures Pieces(a + "." + t) == [a] + Pieces(t)
    decreases |a|
  {
    if |a| == 0 {
      assert a + "." + t == ['.'] + t;
      assert (['.'] + t)[1..] == t;
    } else {
      var s := a + "." + t;
      assert s[1..] == a[1..] + "." + t;
      assert '.' !in a[1..] by {
        forall k | 0 <= k < |a[1..]| ensures a[1..][k] != '.' { assert a[1..][k] == a[k + 1]; }
      }
      PiecesDot(a[1..], t);
      assert s[0] == a[0];
      assert a == [a[0]] + a[1..];
    }
  }

  /** Splitting a dot-joined list of dot-free pieces gives the pieces back. */
  lemma {:induction false} PiecesJoin(ps: seq<string>)
    requires |ps| >= 1
    requires forall k :: 0 <= k < |ps| ==> '.' !in ps[k]
    ensures Pieces(Join(ps)) == ps
    decreases |ps|
  {
    if |ps| == 1 {
      PiecesNoDot(ps[0]);
    } else {
      PiecesJoin(ps[1..]);
      PiecesDot(ps[0], Join(ps[1..]));
      assert ps == [ps[0]] + ps[1..];
    }
  }

  /** When no piece is empty, Java's split is the plain split at every dot. */
  lemma JavaSplitNoEmpty(s: string)
    requires forall k :: 0 <= k < |Pieces(s)| ==> Pieces(s)[k] != ""
    ensures JavaSplit(s) == Pieces(s)
  {
    if '.' !in s {
      PiecesNoDot(s);
    }
  }

  /** The character of a decimal digit: '0' to '9'. */
  function Digit(d: nat): (c: char)
    requires d < 10
  {
    (('0' as int) + d) as char
  }

  function DigitValue(c: char): nat
  {
    if '0' <= c <= '9' then (c as int) - ('0' as int) else 0
  }

  /** `Integer.toString(n)` for a non-negative `n`: no sign, no leading zeros. */
  function Decimal(n: nat): (s: string)
    ensures |s| >= 1
    ensures forall k :: 0 <= k < |s| ==> '0' <= s[k] <= '9'
    ensures n >= 10 ==> s[0] != '0'
  {
    if n < 10 then [Digit(n)] else Decimal(n / 10) + [Digit(n % 10)]
  }

  /** The value of a string of decimal digits. */
  function ParseDecimal(s: string): nat
  {
    if |s| == 0 then 0 else 10 * ParseDecimal(s[..|s| - 1]) + DigitValue(s[|s| - 1])
  }

  /** Decimal rendering is undone by reading the digits back. */
  lemma {:induction false} DecimalRoundTrip(n: nat)
    ensures ParseDecimal(Decimal(n)) == n
  {
    if n < 10 {
      DigitRoundTrip(n);
    } else {
      var s := Decimal(n);
      assert s[..|s| - 1] == Decimal(n / 10);
      assert s[|s| - 1] == Digit(n % 10);
      DecimalRoundTrip(n / 10);
      DigitRoundTrip(n % 10);
    }
  }

  lemma DigitRoundTrip(d: nat)
    requires d < 10
    ensures DigitValue(Digit(d)) == d
  {
  }

  lemma DecimalHasNoDot(n: nat)
    ensures '.' !in Decimal(n)
  {
    var s := Decimal(n);
    forall k | 0 <= k < |s| ensures s[k] != '.' { }
  }
}
