/**
 * The pieces of Python's string library that the morpheme loader relies on,
 * over strings as sequences of characters: `str.split(sep)` with a
 * one-character separator, `str.strip()` and `str(n)` for a natural number.
 */
module Text {

  /** Number of occurrences of `c` in `s`. */
  function Count(s: string, c: char): nat
  {
    if s == [] then 0 else (if s[0] == c then 1 else 0) + Count(s[1..], c)
  }

  /**
   * Python's `s.split(c)`: the maximal runs between separators, so that
   * consecutive separators give an empty piece and the empty string gives
   * one empty piece.
   */
  function Split(s: string, c: char): (pieces: seq<string>)
    ensures |pieces| == Count(s, c) + 1
  {
    if s == [] then [""]
    else
      var rest := Split(s[1..], c);
      if s[0] == c then [""] + rest
      else [[s[0]] + rest[0]] + rest[1..]
  }

  /** No piece contains the separator. */
  lemma {:induction false} SplitPiecesFree(s: string, c: char)
    ensures forall k :: 0 <= k < |Split(s, c)| ==> c !in Split(s, c)[k]
  {
    if s != [] {
      SplitPiecesFree(s[1..], c);
      var rest := Split(s[1..], c);
      if s[0] != c {
        assert forall k :: 1 <= k < |Split(s, c)| ==> Split(s, c)[k] == rest[k];
      } else {
        assert forall k :: 1 <= k < |Split(s, c)| ==> Split(s, c)[k] == rest[k - 1];
      }
    }
  }

  /** The first piece is empty exactly when `s` is empty or starts with the separator. */
  lemma FirstPieceEmpty(s: string, c: char)
    ensures Split(s, c)[0] == "" <==> s == [] || s[0] == c
  {
  }

  /** Position `j` holds a separator followed by another separator or by the end of `s`. */
  predicate EmptyPieceAfter(s: string, c: char, j: int)
  {
    0 <= j < |s| && s[j] == c && (j + 1 == |s| || s[j + 1] == c)
  }

  /**
   * A piece after the first is empty exactly when some separator is followed
   * by another separator or ends the string.
   */
  lemma {:induction false} LaterPieceEmpty(s: string, c: char)
    ensures "" in Split(s, c)[1..] <==> exists j :: EmptyPieceAfter(s, c, j)
  {
    if s != [] {
      var t, rest := s[1..], Split(s[1..], c);
      LaterPieceEmpty(t, c);
      FirstPieceEmpty(t, c);
      if s[0] == c {
        assert Split(s, c)[1..] == rest == [rest[0]] + rest[1..];
        if "" in rest {
          if rest[0] == "" {
            assert EmptyPieceAfter(s, c, 0);
          } else {
            var j :| EmptyPieceAfter(t, c, j);
            assert EmptyPieceAfter(s, c, j + 1);
          }
        }
        if exists j :: EmptyPieceAfter(s, c, j) {
          var j :| EmptyPieceAfter(s, c, j);
          if j > 0 {
            assert EmptyPieceAfter(t, c, j - 1);
          }
        }
      } else {
        assert Split(s, c)[1..] == rest[1..];
        if "" in rest[1..] {
          var j :| EmptyPieceAfter(t, c, j);
          assert EmptyPieceAfter(s, c, j + 1);
        }
        if exists j :: EmptyPieceAfter(s, c, j) {
          var j :| EmptyPieceAfter(s, c, j);
          assert EmptyPieceAfter(t, c, j - 1);
        }
      }
    }
  }

  /** Python's `c.join(pieces)`, the inverse of `Split`. */
  function Join(pieces: seq<string>, c: char): string
    requires |pieces| >= 1
  {
    if |pieces| == 1 then pieces[0] else pieces[0] + [c] + Join(pieces[1..], c)
  }

  /** Joining the pieces back with the separator gives the original string. */
  lemma {:induction false} JoinSplit(s: string, c: char)
    ensures Join(Split(s, c), c) == s
  {
    if s != [] {
      JoinSplit(s[1..], c);
      var rest := Split(s[1..], c);
      if s[0] != c {
        var pieces := Split(s, c);
        assert pieces[1..] == rest[1..];
        if |rest| == 1 {
          assert Join(pieces, c) == [s[0]] + rest[0];
        } else {
          assert Join(pieces, c) == [s[0]] + rest[0] + [c] + Join(rest[1..], c);
        }
      } else {
        assert Split(s, c)[1..] == rest;
      }
    }
  }

  /** Splitting a separator-free prefix `p` followed by `t`. */
  lemma {:induction false} SplitPrefix(p: string, t: string, c: char)
    requires c !in p
    ensures Split(p + t, c) == [p + Split(t, c)[0]] + Split(t, c)[1..]
  {
    if p != [] {
      SplitPrefix(p[1..], t, c);
      assert (p + t)[1..] == p[1..] + t;
      assert [p[0]] + (p[1..] + Split(t, c)[0]) == p + Split(t, c)[0];
    } else {
      var pieces := Split(t, c);
      assert p + t == t && p + pieces[0] == pieces[0];
      assert [pieces[0]] + pieces[1..] == pieces;
    }
  }

  /** Splitting a join of separator-free pieces gives back those pieces. */
  lemma {:induction false} SplitJoin(pieces: seq<string>, c: char)
    requires |pieces| >= 1
    requires forall k :: 0 <= k < |pieces| ==> c !in pieces[k]
    ensures Split(Join(pieces, c), c) == pieces
  {
    if |pieces| == 1 {
      SplitPrefix(pieces[0], "", c);
      assert pieces[0] + "" == pieces[0];
    } else {
      var tail := Join(pieces[1..], c);
      SplitJoin(pieces[1..], c);
      assert pieces[0] + [c] + tail == pieces[0] + ([c] + tail);
      SplitPrefix(pieces[0], [c] + tail, c);
      assert ([c] + tail)[1..] == tail;
      assert Split([c] + tail, c) == [""] + pieces[1..];
      assert pieces[0] + "" == pieces[0];
    }
  }

  /** Sum of a sequence of naturals. */
  function Sum(xs: seq<nat>): nat
  {
    if xs == [] then 0 else xs[0] + Sum(xs[1..])
  }

  /** The length of each piece, in order. */
  function Lengths(pieces: seq<string>): (lengths: seq<nat>)
    ensures |lengths| == |pieces|
  {
    if pieces == [] then [] else [|pieces[0]|] + Lengths(pieces[1..])
  }

  /** Entry `k` of the lengths is the length of piece `k`. */
  lemma {:induction false} LengthsAt(pieces: seq<string>, k: nat)
    requires k < |pieces|
    ensures Lengths(pieces)[k] == |pieces[k]|
  {
    if k > 0 {
      LengthsAt(pieces[1..], k - 1);
    }
  }

  /** A join is as long as its pieces plus one separator between each two. */
  lemma {:induction false} JoinLength(pieces: seq<string>, c: char)
    requires |pieces| >= 1
    ensures |Join(pieces, c)| == Sum(Lengths(pieces)) + |pieces| - 1
  {
    if |pieces| > 1 {
      JoinLength(pieces[1..], c);
    }
  }

  // ---------------------------------------------------------------- strip

  /** The characters `str.strip()` removes from a byte string: space, \t, \n, \v, \f, \r. */
  predicate IsSpace(ch: char)
  {
    ch == ' ' || 9 <= ch as int <= 13
  }

  predicate AllSpace(s: string)
  {
    forall k :: 0 <= k < |s| ==> IsSpace(s[k])
  }

  /** `s.lstrip()`: what is left after dropping the leading whitespace. */
  function TrimLeft(s: string): (r: string)
    ensures |r| <= |s|
  {
    if s != [] && IsSpace(s[0]) then TrimLeft(s[1..]) else s
  }

  /** `s.rstrip()`: what is left after dropping the trailing whitespace. */
  function TrimRight(s: string): (r: string)
    ensures |r| <= |s|
  {
    if s != [] && IsSpace(s[|s| - 1]) then TrimRight(s[..|s| - 1]) else s
  }

  /** `s.strip()`. */
  function Strip(s: string): (r: string)
    ensures |r| <= |s|
  {
    TrimRight(TrimLeft(s))
  }

  /** `TrimLeft(s)` is the suffix of `s` after a whitespace prefix, and starts with a non-space. */
  lemma {:induction false} TrimLeftSpec(s: string)
    ensures var r := TrimLeft(s);
      && r == s[|s| - |r|..]
      && AllSpace(s[..|s| - |r|])
      && (r == [] || !IsSpace(r[0]))
  {
    if s != [] && IsSpace(s[0]) {
      TrimLeftSpec(s[1..]);
      var r := TrimLeft(s);
      assert s[1..][|s| - 1 - |r|..] == s[|s| - |r|..];
      assert s[..|s| - |r|] == [s[0]] + s[1..][..|s| - 1 - |r|];
    } else {
      assert s[..0] == [];
    }
  }

  /** `TrimRight(s)` is the prefix of `s` before a whitespace suffix, and ends with a non-space. */
  lemma {:induction false} TrimRightSpec(s: string)
    ensures var r := TrimRight(s);
      && r == s[..|r|]
      && AllSpace(s[|r|..])
      && (r == [] || !IsSpace(r[|r| - 1]))
  {
    if s != [] && IsSpace(s[|s| - 1]) {
      var t := s[..|s| - 1];
      TrimRightSpec(t);
      var r := TrimRight(s);
      assert t[..|r|] == s[..|r|];
      assert s[|r|..] == t[|r|..] + [s[|s| - 1]];
    } else {
      assert s[|s|..] == [];
    }
  }

  /**
   * `Strip(s)` is the infix of `s` left after removing a whitespace prefix
   * and a whitespace suffix, and it starts and ends with a non-whitespace
   * character (or is empty).
   */
  lemma StripIsInfix(s: string)
    ensures var lo, r := |s| - |TrimLeft(s)|, Strip(s);
      && lo + |r| <= |s|
      && r == s[lo..lo + |r|]
      && AllSpace(s[..lo])
      && AllSpace(s[lo + |r|..])
      && (r == [] || (!IsSpace(r[0]) && !IsSpace(r[|r| - 1])))
  {
    var t := TrimLeft(s);
    TrimLeftSpec(s);
    TrimRightSpec(t);
    var lo, r := |s| - |t|, TrimRight(t);
    assert t == s[lo..];
    assert s[lo..][..|r|] == s[lo..lo + |r|];
    assert s[lo..][|r|..] == s[lo + |r|..];
  }

  /** A string that neither starts nor ends with whitespace is left as it is. */
  lemma StripUnchanged(s: string)
    requires s == [] || (!IsSpace(s[0]) && !IsSpace(s[|s| - 1]))
    ensures Strip(s) == s
  {
    assert TrimLeft(s) == s;
  }

  /** Stripping twice is stripping once. */
  lemma StripIdempotent(s: string)
    ensures Strip(Strip(s)) == Strip(s)
  {
    StripIsInfix(s);
    StripUnchanged(Strip(s));
  }

  // ---------------------------------------------------------------- str(n)

  predicate IsDigit(ch: char)
  {
    '0' <= ch <= '9'
  }

  predicate AllDigits(s: string)
  {
    forall k :: 0 <= k < |s| ==> IsDigit(s[k])
  }

  function DigitChar(d: nat): (ch: char)
    requires d < 10
    ensures IsDigit(ch) && ch as int - '0' as int == d
  {
    ('0' as int + d) as char
  }

  /** `str(n)`: the decimal numeral of `n`, without leading zeros. */
  function Decimal(n: nat): (r: string)
    ensures |r| >= 1 && AllDigits(r)
    ensures |r| > 1 ==> r[0] != '0'
  {
    if n < 10 then [DigitChar(n)] else Decimal(n / 10) + [DigitChar(n % 10)]
  }

  /** The number a string of decimal digits denotes (Python's `int(s)`). */
  function DigitsValue(s: string): nat
    requires AllDigits(s)
  {
    if s == [] then 0
    else 10 * DigitsValue(s[..|s| - 1]) + (s[|s| - 1] as int - '0' as int)
  }

  /** Reading back a numeral gives the number. */
  lemma {:induction false} DecimalRoundTrip(n: nat)
    ensures DigitsValue(Decimal(n)) == n
  {
    if n >= 10 {
      DecimalRoundTrip(n / 10);
      var r := Decimal(n);
      assert r[..|r| - 1] == Decimal(n / 10);
    }
  }

  /** Distinct numbers have distinct numerals. */
  lemma DecimalInjective(m: nat, n: nat)
    requires m != n
    ensures Decimal(m) != Decimal(n)
  {
    DecimalRoundTrip(m);
    DecimalRoundTrip(n);
  }
}
