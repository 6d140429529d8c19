/** The PHP string built-ins the library relies on, for the one delimiter it
    uses: `strpos($s, ', ') !== FALSE`, `explode(', ', $s)`, the conversion
    of a positive integer to its decimal string (`'member.' . ($i + 1)`),
    and `empty()` on a string. */
module PhpStrings {

  /** The list delimiter of the library: a comma followed by one space. */
  const Sep: string := ", "

  /** The delimiter occurs at position i of s. */
  predicate SepAt(s: string, i: int)
  {
    0 <= i && i + 1 < |s| && s[i] == ',' && s[i + 1] == ' '
  }

  /** `strpos($s, ', ') !== FALSE`: the delimiter occurs somewhere in s. */
  predicate ContainsSep(s: string)
  {
    exists i | 0 <= i < |s| :: SepAt(s, i)
  }

  /** `explode(', ', $s)`: the pieces of s between occurrences of the
      delimiter, scanned from the left; there is always at least one piece. */
  function Explode(s: string): (pieces: seq<string>)
    ensures |pieces| >= 1
    decreases |s|
  {
    if |s| == 0 then [""]
    else if SepAt(s, 0) then [""] + Explode(s[2..])
    else
      var rest := Explode(s[1..]);
      [[s[0]] + rest[0]] + rest[1..]
  }

  /** Joining pieces with the delimiter, as `implode(', ', $pieces)` would:
      a left inverse of Explode, and a right inverse on the non-empty
      sequences of pieces without the delimiter. */
  function Implode(pieces: seq<string>): string
  {
    if |pieces| == 0 then ""
    else if |pieces| == 1 then pieces[0]
    else pieces[0] + Sep + Implode(pieces[1..])
  }

  /** Implode of two or more pieces: the first, the delimiter, the rest. */
  lemma ImplodeStep(pieces: seq<string>)
    requires |pieces| >= 2
    ensures Implode(pieces) == pieces[0] + Sep + Implode(pieces[1..])
  {
  }

  /** Lengthening the first piece by a prefix lengthens the joined string by it. */
  lemma ImplodeLongerHead(a: string, b: string, more: seq<string>)
    ensures Implode([a + b] + more) == a + Implode([b] + more)
  {
    if more != [] {
      var tail := Implode(more);
      assert Implode([a + b] + more) == (a + b) + Sep + tail by {
        assert ([a + b] + more)[1..] == more;
        ImplodeStep([a + b] + more);
      }
      assert Implode([b] + more) == b + Sep + tail by {
        assert ([b] + more)[1..] == more;
        ImplodeStep([b] + more);
      }
      assert (a + b) + Sep + tail == a + (b + Sep + tail);
    }
  }

  /** Joining the pieces again gives back the exploded string. */
  lemma {:induction false} ImplodeExplode(s: string)
    ensures Implode(Explode(s)) == s
    decreases |s|
  {
    if |s| == 0 {
    } else if SepAt(s, 0) {
      ImplodeExplode(s[2..]);
      assert s == Sep + s[2..];
    } else {
      ImplodeExplode(s[1..]);
      var rest := Explode(s[1..]);
      ImplodeLongerHead([s[0]], rest[0], rest[1..]);
      assert [rest[0]] + rest[1..] == rest;
      assert s == [s[0]] + s[1..];
    }
  }

  /** Pieces without the delimiter, joined and exploded again, come back
      unchanged. */
  lemma {:induction false} ExplodeImplode(pieces: seq<string>)
    requires |pieces| >= 1
    requires forall k :: 0 <= k < |pieces| ==> !ContainsSep(pieces[k])
    ensures Explode(Implode(pieces)) == pieces
    decreases |pieces|
  {
    if |pieces| == 1 {
      ExplodeWithoutSep(pieces[0]);
      assert pieces == [pieces[0]];
    } else {
      ExplodeImplode(pieces[1..]);
      ImplodeStep(pieces);
      ExplodeFirstPiece(pieces[0], Implode(pieces[1..]));
      assert pieces == [pieces[0]] + pieces[1..];
    }
  }

  /** The first piece of an explosion is a prefix of the string. */
  lemma {:induction false} FirstPieceIsPrefix(s: string)
    ensures Explode(s)[0] <= s
    decreases |s|
  {
    if |s| != 0 && !SepAt(s, 0) {
      FirstPieceIsPrefix(s[1..]);
    }
  }

  /** No piece of an explosion contains the delimiter. */
  lemma {:induction false} PiecesHaveNoSep(s: string)
    ensures forall k :: 0 <= k < |Explode(s)| ==> !ContainsSep(Explode(s)[k])
    decreases |s|
  {
    if |s| == 0 {
      assert Explode(s) == [""];
      assert !SepAt("", 0);
    } else if SepAt(s, 0) {
      PiecesHaveNoSep(s[2..]);
      var pieces := Explode(s);
      forall k | 0 <= k < |pieces| ensures !ContainsSep(pieces[k]) {
        if k == 0 {
          assert pieces[0] == "";
        } else {
          assert pieces[k] == Explode(s[2..])[k - 1];
        }
      }
    } else {
      var rest := Explode(s[1..]);
      PiecesHaveNoSep(s[1..]);
      FirstPieceIsPrefix(s[1..]);
      var pieces := Explode(s);
      forall k | 0 <= k < |pieces| ensures !ContainsSep(pieces[k]) {
        if k == 0 {
          var head := [s[0]] + rest[0];
          assert pieces[0] == head;
          forall i | 0 <= i < |head| ensures !SepAt(head, i) {
            if i == 0 {
              if |head| > 1 {
                assert head[1] == rest[0][0] == s[1];
              }
              assert !SepAt(s, 0);
            } else {
              assert head[i] == rest[0][i - 1];
              assert i + 1 < |head| ==> head[i + 1] == rest[0][i];
              assert !SepAt(rest[0], i - 1);
            }
          }
        } else {
          assert pieces[k] == rest[k];
        }
      }
    }
  }

  /** A string without the delimiter explodes into itself alone. */
  lemma {:induction false} ExplodeWithoutSep(s: string)
    requires !ContainsSep(s)
    ensures Explode(s) == [s]
    decreases |s|
  {
    if |s| != 0 {
      assert !SepAt(s, 0);
      assert !ContainsSep(s[1..]) by {
        if i :| SepAt(s[1..], i) {
          assert SepAt(s, i + 1);
        }
      }
      ExplodeWithoutSep(s[1..]);
      assert s == [s[0]] + s[1..];
    }
  }

  /** A string with the delimiter explodes into at least two pieces. */
  lemma {:induction false} ExplodeWithSep(s: string)
    requires ContainsSep(s)
    ensures |Explode(s)| >= 2
    decreases |s|
  {
    if !SepAt(s, 0) {
      var i :| 0 <= i < |s| && SepAt(s, i);
      assert i >= 1;
      assert s[1..][i - 1] == s[i] && s[1..][i] == s[i + 1];
      assert SepAt(s[1..], i - 1);
      ExplodeWithSep(s[1..]);
    }
  }

  /** Exploding `a, rest` with no delimiter in a gives a, then the pieces of rest. */
  lemma {:induction false} ExplodeFirstPiece(a: string, rest: string)
    requires !ContainsSep(a)
    ensures Explode(a + Sep + rest) == [a] + Explode(rest)
    decreases |a|
  {
    var s := a + Sep + rest;
    if |a| == 0 {
      assert s == Sep + rest;
      assert s[2..] == rest;
    } else {
      assert !SepAt(a, 0);
      assert !ContainsSep(a[1..]) by {
        if i :| 0 <= i < |a[1..]| && SepAt(a[1..], i) {
          assert SepAt(a, i + 1);
        }
      }
      assert !SepAt(s, 0) by {
        if |a| == 1 {
          assert s[1] == ',';
        } else {
          assert s[1] == a[1];
        }
      }
      assert s[1..] == a[1..] + Sep + rest;
      ExplodeFirstPiece(a[1..], rest);
      assert [a[0]] + a[1..] == a;
    }
  }

  /** The decimal digit for 0 <= d < 10. */
  function Digit(d: nat): char
    requires d < 10
  {
    "0123456789"[d]
  }

  /** The decimal representation of n, without leading zeros, as PHP's
      string conversion of an integer writes it. */
  function Decimal(n: nat): (r: string)
    ensures |r| >= 1
    ensures n >= 10 ==> |r| >= 2
  {
    if n < 10 then [Digit(n)] else Decimal(n / 10) + [Digit(n % 10)]
  }

  /** Distinct numbers have distinct decimal representations. */
  lemma {:induction false} DecimalInjective(m: nat, n: nat)
    requires Decimal(m) == Decimal(n)
    ensures m == n
  {
    var dm, dn := Decimal(m), Decimal(n);
    if m < 10 && n < 10 {
      assert Digit(m) == dm[0] == Digit(n);
    } else if m >= 10 && n >= 10 {
      assert Digit(m % 10) == dm[|dm| - 1] == Digit(n % 10);
      assert dm[..|dm| - 1] == Decimal(m / 10);
      assert dn[..|dn| - 1] == Decimal(n / 10);
      DecimalInjective(m / 10, n / 10);
    }
  }

  /** PHP's `empty()` on a string: true for "" and for "0". */
  predicate PhpEmpty(s: string)
  {
    s == "" || s == "0"
  }
}
