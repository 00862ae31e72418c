/**
 * The string operations the calculator relies on, written with the semantics
 * of the JavaScript built-ins it calls: `split` on a separator, `join`,
 * `trim`, `split(/\s+/)`, `parseInt(s, 10)` and `Number.prototype.toString()`.
 */
module Text {
  import opened Wrappers

  /** The characters that `String.prototype.trim` and the regular-expression class `\s` treat as white space. */
  const Whitespace: set<char> := {
    ' ', '\t', '\n', '\r', '\U{000B}', '\U{000C}', '\U{00A0}', '\U{1680}',
    '\U{2000}', '\U{2001}', '\U{2002}', '\U{2003}', '\U{2004}', '\U{2005}',
    '\U{2006}', '\U{2007}', '\U{2008}', '\U{2009}', '\U{200A}',
    '\U{2028}', '\U{2029}', '\U{202F}', '\U{205F}', '\U{3000}', '\U{FEFF}'
  }

  predicate IsDigit(c: char) { '0' <= c <= '9' }

  predicate AllDigits(s: string) { forall i :: 0 <= i < |s| ==> IsDigit(s[i]) }

  /** A character of a signed decimal number. */
  predicate NumberChar(c: char) { IsDigit(c) || c == '-' || c == '+' }

  /** True when every character of `s` is in `cs`. */
  predicate Within(s: string, cs: set<char>) { forall i :: 0 <= i < |s| ==> s[i] in cs }

  /** True when no character of `s` is in `seps`. */
  predicate Avoids(s: string, seps: set<char>) { forall i :: 0 <= i < |s| ==> s[i] !in seps }

  function Repeat(c: char, n: nat): (s: string)
    ensures |s| == n && forall i :: 0 <= i < n ==> s[i] == c
  {
    seq(n, _ => c)
  }

  // ---------------------------------------------------------------------
  // split and join

  /**
   * `s.split(sep)` generalised to a set of one-character separators: the
   * pieces between consecutive separators, always at least one piece.
   */
  function SplitAt(s: string, seps: set<char>): (parts: seq<string>)
    ensures |parts| >= 1
    ensures forall k :: 0 <= k < |parts| ==> Avoids(parts[k], seps)
    ensures |parts| == 1 <==> Avoids(s, seps)
    decreases |s|
  {
    if s == [] then [[]]
    else
      var rest := SplitAt(s[1..], seps);
      if s[0] in seps then [[]] + rest
      else
        assert Avoids(rest[0], seps);
        [[s[0]] + rest[0]] + rest[1..]
  }

  /** `s.split(sep)` for a one-character separator. */
  function Split(s: string, sep: char): (parts: seq<string>)
    ensures |parts| >= 1
    ensures forall k :: 0 <= k < |parts| ==> sep !in parts[k]
    ensures |parts| == 1 <==> sep !in s
  {
    var parts := SplitAt(s, {sep});
    assert forall k :: 0 <= k < |parts| ==> Avoids(parts[k], {sep});
    parts
  }

  /** `parts.join(sep)`. */
  function Join(parts: seq<string>, sep: char): string
  {
    if |parts| == 0 then []
    else if |parts| == 1 then parts[0]
    else parts[0] + [sep] + Join(parts[1..], sep)
  }

  lemma JoinFour(ts: seq<string>, sep: char)
    requires |ts| == 4
    ensures Join(ts, sep) == ts[0] + [sep] + ts[1] + [sep] + ts[2] + [sep] + ts[3]
  {
    var t1, t2, t3 := ts[1..], ts[1..][1..], ts[1..][1..][1..];
    assert t3 == [ts[3]] && t2[0] == ts[2] && t1[0] == ts[1];
    assert Join(t2, sep) == ts[2] + [sep] + ts[3];
    assert Join(t1, sep) == ts[1] + [sep] + (ts[2] + [sep] + ts[3]);
  }

  lemma {:induction false} SplitNoSeparator(p: string, seps: set<char>)
    requires Avoids(p, seps)
    ensures SplitAt(p, seps) == [p]
    decreases |p|
  {
    if p != [] {
      SplitNoSeparator(p[1..], seps);
      assert [p[0]] + p[1..] == p;
    }
  }

  lemma {:induction false} SplitAtFirstSeparator(p: string, d: char, rest: string, seps: set<char>)
    requires Avoids(p, seps) && d in seps
    ensures SplitAt(p + [d] + rest, seps) == [p] + SplitAt(rest, seps)
    decreases |p|
  {
    if p == [] {
      assert p + [d] + rest == [d] + rest;
      assert ([d] + rest)[1..] == rest;
    } else {
      var s := p + [d] + rest;
      assert s[0] == p[0] && s[1..] == p[1..] + [d] + rest;
      SplitAtFirstSeparator(p[1..], d, rest, seps);
      assert [p[0]] + p[1..] == p;
    }
  }

  /** Splitting a join gives the pieces back, when no piece holds the separator. */
  lemma {:induction false} SplitJoin(parts: seq<string>, sep: char)
    requires |parts| >= 1
    requires forall k :: 0 <= k < |parts| ==> sep !in parts[k]
    ensures Split(Join(parts, sep), sep) == parts
    decreases |parts|
  {
    assert Avoids(parts[0], {sep});
    if |parts| == 1 {
      SplitNoSeparator(parts[0], {sep});
    } else {
      SplitAtFirstSeparator(parts[0], sep, Join(parts[1..], sep), {sep});
      SplitJoin(parts[1..], sep);
      assert [parts[0]] + parts[1..] == parts;
    }
  }

  /** Joining the pieces of a split gives the string back. */
  lemma {:induction false} JoinSplit(s: string, sep: char)
    ensures Join(Split(s, sep), sep) == s
    decreases |s|
  {
    if s != [] {
      JoinSplit(s[1..], sep);
      var rest := SplitAt(s[1..], {sep});
      if s[0] != sep {
        var parts := [[s[0]] + rest[0]] + rest[1..];
        if |rest| > 1 {
          assert parts[1..] == rest[1..];
          assert Join(rest, sep) == rest[0] + [sep] + Join(rest[1..], sep);
        }
      } else {
        assert ([[]] + rest)[1..] == rest;
      }
    }
  }

  /** A join of number pieces holds only number characters and the separator. */
  lemma {:induction false} JoinChars(parts: seq<string>, sep: char)
    requires forall k :: 0 <= k < |parts| ==> forall i :: 0 <= i < |parts[k]| ==> NumberChar(parts[k][i])
    ensures forall i :: 0 <= i < |Join(parts, sep)| ==> NumberChar(Join(parts, sep)[i]) || Join(parts, sep)[i] == sep
    decreases |parts|
  {
    if |parts| > 1 {
      JoinChars(parts[1..], sep);
      var s, a, rest := Join(parts, sep), parts[0], Join(parts[1..], sep);
      assert s == a + [sep] + rest;
      forall i | 0 <= i < |s| ensures NumberChar(s[i]) || s[i] == sep {
        if i < |a| {
          assert s[i] == a[i] && NumberChar(parts[0][i]);
        } else if i > |a| {
          var j := i - |a| - 1;
          assert s[i] == rest[j] && (NumberChar(rest[j]) || rest[j] == sep);
        }
      }
    }
  }

  // ---------------------------------------------------------------------
  // trim and split on white-space runs

  /** `s` without its leading white space. */
  function TrimStart(s: string): (r: string)
    ensures r == [] || r[0] !in Whitespace
    ensures |r| <= |s| && r == s[|s| - |r|..]
    decreases |s|
  {
    if s != [] && s[0] in Whitespace then TrimStart(s[1..]) else s
  }

  /** `s` without its trailing white space. */
  function TrimEnd(s: string): (r: string)
    ensures r == [] || r[|r| - 1] !in Whitespace
    ensures |r| <= |s| && r == s[..|r|]
    decreases |s|
  {
    if s != [] && s[|s| - 1] in Whitespace then TrimEnd(s[..|s| - 1]) else s
  }

  /** `s.trim()`: `s` without leading and trailing white space. */
  function Trim(s: string): (r: string)
    ensures r == [] || (r[0] !in Whitespace && r[|r| - 1] !in Whitespace)
  {
    var t := TrimStart(s);
    var r := TrimEnd(t);
    assert r != [] ==> r[0] == t[0];
    r
  }

  /** Neither end of `s` is white space. */
  predicate Unpadded(s: string)
  {
    s == [] || (s[0] !in Whitespace && s[|s| - 1] !in Whitespace)
  }

  lemma TrimKeepsUnpadded(s: string)
    requires Unpadded(s)
    ensures Trim(s) == s
  {
  }

  /** Leading white space stops at the first character that is not white space, wherever it lies. */
  lemma {:induction false} TrimStartAround(x: string, c: char, y: string)
    requires c !in Whitespace
    ensures TrimStart(x + [c] + y) == TrimStart(x) + [c] + y
    decreases |x|
  {
    var s := x + [c] + y;
    if x == [] {
      assert s == [c] + y;
    } else if x[0] in Whitespace {
      assert s[1..] == x[1..] + [c] + y;
      TrimStartAround(x[1..], c, y);
    }
  }

  /** Trailing white space stops at the last character that is not white space, wherever it lies. */
  lemma {:induction false} TrimEndAround(x: string, c: char, y: string)
    requires c !in Whitespace
    ensures TrimEnd(x + [c] + y) == x + [c] + TrimEnd(y)
    decreases |y|
  {
    var s := x + [c] + y;
    if y == [] {
      assert s == x + [c];
    } else if y[|y| - 1] in Whitespace {
      assert s[..|s| - 1] == x + [c] + y[..|y| - 1];
      TrimEndAround(x, c, y[..|y| - 1]);
    }
  }

  /** Text that ends in a character other than white space keeps what follows it when its start is trimmed. */
  lemma {:induction false} TrimStartAppend(u: string, v: string)
    requires u != [] && u[|u| - 1] !in Whitespace
    ensures TrimStart(u + v) == TrimStart(u) + v
    decreases |u|
  {
    if u[0] in Whitespace {
      assert (u + v)[1..] == u[1..] + v;
      TrimStartAppend(u[1..], v);
    }
  }

  /** Appending white space does not change what trimming the end leaves. */
  lemma {:induction false} TrimEndWhitespaceTail(u: string, w: string)
    requires Within(w, Whitespace)
    ensures TrimEnd(u + w) == TrimEnd(u)
    decreases |w|
  {
    if w != [] {
      assert (u + w)[..|u + w| - 1] == u + w[..|w| - 1];
      TrimEndWhitespaceTail(u, w[..|w| - 1]);
    } else {
      assert u + w == u;
    }
  }

  /** What trimming the end drops is white space. */
  lemma {:induction false} TrimEndDropsWhitespace(s: string)
    ensures Within(s[|TrimEnd(s)|..], Whitespace)
    decreases |s|
  {
    if s != [] && s[|s| - 1] in Whitespace {
      var t := s[..|s| - 1];
      TrimEndDropsWhitespace(t);
      assert s[|TrimEnd(s)|..] == t[|TrimEnd(t)|..] + [s[|s| - 1]];
    }
  }

  /** Trimming the start first does not change the trimmed text. */
  lemma TrimOfTrimStart(s: string)
    ensures Trim(TrimStart(s)) == Trim(s)
  {
    var t := TrimStart(s);
    assert TrimStart(t) == t;
  }

  /** Trimming the end first does not change the trimmed text. */
  lemma TrimOfTrimEnd(s: string)
    ensures Trim(TrimEnd(s)) == Trim(s)
  {
    var u := TrimEnd(s);
    var w := s[|u|..];
    assert s == u + w;
    TrimEndDropsWhitespace(s);
    if u == [] {
      TrimOfWhitespace(s);
    } else {
      TrimOfPaddedEnd(u, w);
    }
  }

  /** Text that is all white space trims to nothing. */
  lemma TrimOfWhitespace(s: string)
    requires Within(s, Whitespace)
    ensures Trim(s) == []
  {
  }

  /** White space after the last other character does not change the trimmed text. */
  lemma TrimOfPaddedEnd(u: string, w: string)
    requires u != [] && u[|u| - 1] !in Whitespace && Within(w, Whitespace)
    ensures Trim(u + w) == Trim(u)
  {
    TrimStartAppend(u, w);
    TrimEndWhitespaceTail(TrimStart(u), w);
  }

  /** A piece of text that avoids some characters avoids them everywhere. */
  lemma AvoidsSlice(s: string, i: int, j: int, seps: set<char>)
    requires Avoids(s, seps) && 0 <= i <= j <= |s|
    ensures Avoids(s[i..j], seps)
  {
    forall k | 0 <= k < j - i ensures s[i..j][k] !in seps {
      assert s[i..j][k] == s[i + k];
    }
  }

  /** Text free of white space is its own trim. */
  lemma TrimOfPlain(s: string)
    requires Avoids(s, Whitespace)
    ensures Trim(s) == s
  {
    if s != [] {
      assert s[0] !in Whitespace && s[|s| - 1] !in Whitespace;
      TrimKeepsUnpadded(s);
    }
  }

  lemma DigitNotWhitespace(c: char)
    requires IsDigit(c) || c == '.'
    ensures c !in Whitespace
  {
  }

  /** The pieces of `ps` that are not empty, in order. */
  function NonEmpty(ps: seq<string>): (r: seq<string>)
    ensures |r| <= |ps|
    ensures forall k :: 0 <= k < |r| ==> r[k] != []
  {
    if ps == [] then [] else (if ps[0] == [] then [] else [ps[0]]) + NonEmpty(ps[1..])
  }

  /**
   * `s.split(/\s+/)`: splitting at every maximal run of white space. Splitting
   * at each single white-space character and dropping the empty pieces that
   * a run leaves between its characters gives the same pieces; an empty piece
   * survives only at either end, where the run touches the edge of `s`.
   */
  function SplitOnWhitespaceRuns(s: string): (parts: seq<string>)
    ensures |parts| >= 1
  {
    var pieces := SplitAt(s, Whitespace);
    if |pieces| == 1 then pieces
    else [pieces[0]] + NonEmpty(pieces[1..|pieces| - 1]) + [pieces[|pieces| - 1]]
  }

  /** `n` empty strings. */
  function Empties(n: nat): (r: seq<string>)
    ensures |r| == n && forall k :: 0 <= k < n ==> r[k] == []
  {
    seq(n, _ => [])
  }

  /** Separators in front of a separator-free piece split off as empty pieces, one each. */
  lemma {:induction false} SplitAfterSeparators(w: string, y: string, seps: set<char>)
    requires Within(w, seps) && Avoids(y, seps)
    ensures SplitAt(w + y, seps) == Empties(|w|) + [y]
    decreases |w|
  {
    if w == [] {
      assert w + y == y;
      SplitNoSeparator(y, seps);
    } else {
      SplitAfterSeparators(w[1..], y, seps);
      assert (w + y)[1..] == w[1..] + y;
      assert Empties(|w|) == [[]] + Empties(|w| - 1);
    }
  }

  lemma {:induction false} NonEmptyOfEmpties(n: nat)
    ensures NonEmpty(Empties(n)) == []
    decreases n
  {
    if n > 0 {
      assert Empties(n)[1..] == Empties(n - 1);
      NonEmptyOfEmpties(n - 1);
    }
  }

  /** A white-space run between two pieces free of white space splits into exactly those pieces. */
  lemma SplitOnRunBetween(x: string, w: string, y: string)
    requires Avoids(x, Whitespace) && Avoids(y, Whitespace)
    requires w != [] && Within(w, Whitespace)
    ensures SplitOnWhitespaceRuns(x + w + y) == [x, y]
  {
    assert x + w + y == x + [w[0]] + (w[1..] + y);
    SplitAtFirstSeparator(x, w[0], w[1..] + y, Whitespace);
    SplitAfterSeparators(w[1..], y, Whitespace);
    var pieces := SplitAt(x + w + y, Whitespace);
    assert pieces == [x] + Empties(|w| - 1) + [y];
    assert pieces[1..|pieces| - 1] == Empties(|w| - 1);
    NonEmptyOfEmpties(|w| - 1);
  }

  /** `NonEmpty` drops every piece exactly when all of them are empty. */
  lemma {:induction false} NonEmptyNone(ps: seq<string>)
    requires NonEmpty(ps) == []
    ensures forall k :: 0 <= k < |ps| ==> ps[k] == []
    decreases |ps|
  {
    if ps != [] {
      NonEmptyNone(ps[1..]);
      forall k | 1 <= k < |ps| ensures ps[k] == [] {
        assert ps[k] == ps[1..][k - 1];
      }
    }
  }

  /** The first separator in text that holds one, with none before it. */
  lemma {:induction false} FirstSeparator(s: string, seps: set<char>) returns (i: nat)
    requires !Avoids(s, seps)
    ensures i < |s| && s[i] in seps && Avoids(s[..i], seps)
    decreases |s|
  {
    if s[0] in seps {
      i := 0;
    } else {
      var j := FirstSeparator(s[1..], seps);
      i := j + 1;
      assert s[..i] == [s[0]] + s[1..][..j];
    }
  }

  /**
   * Text whose pieces between separators are all empty except the last
   * is a run of separators followed by that last piece.
   */
  lemma {:induction false} LeadingRun(y: string, seps: set<char>, ps: seq<string>) returns (w: string)
    requires ps == SplitAt(y, seps)
    requires forall k :: 0 <= k < |ps| - 1 ==> ps[k] == []
    ensures Within(w, seps) && y == w + ps[|ps| - 1]
    decreases |y|
  {
    if |ps| == 1 {
      SplitNoSeparator(y, seps);
      w := [];
    } else {
      var rest := SplitAt(y[1..], seps);
      assert y != [] && ps[0] == [];
      assert y[0] in seps;
      assert ps == [[]] + rest;
      forall k | 0 <= k < |rest| - 1 ensures rest[k] == [] {
        assert rest[k] == ps[k + 1];
      }
      var v := LeadingRun(y[1..], seps, rest);
      w := [y[0]] + v;
      assert y == [y[0]] + y[1..];
    }
  }

  /**
   * Text whose pieces between separators are empty except the first and the
   * last is those two pieces around a run of separators.
   */
  lemma AroundRun(s: string, seps: set<char>, ps: seq<string>) returns (w: string)
    requires ps == SplitAt(s, seps) && |ps| >= 2
    requires forall k :: 1 <= k < |ps| - 1 ==> ps[k] == []
    ensures w != [] && Within(w, seps) && s == ps[0] + w + ps[|ps| - 1]
  {
    var i := FirstSeparator(s, seps);
    var x, y := s[..i], s[i + 1..];
    assert s == x + [s[i]] + y;
    SplitAtFirstSeparator(x, s[i], y, seps);
    w := RunAfterFirstSeparator(x, s[i], y, seps, SplitAt(y, seps), ps);
  }

  /** `AroundRun` once the first separator `d` is found and the pieces after it are `ys`. */
  lemma RunAfterFirstSeparator(x: string, d: char, y: string, seps: set<char>, ys: seq<string>, ps: seq<string>)
    returns (w: string)
    requires d in seps && ys == SplitAt(y, seps) && ps == [x] + ys
    requires forall k :: 1 <= k < |ps| - 1 ==> ps[k] == []
    ensures w != [] && Within(w, seps) && x + [d] + y == ps[0] + w + ps[|ps| - 1]
  {
    forall k | 0 <= k < |ys| - 1 ensures ys[k] == [] {
      assert ys[k] == ps[k + 1];
    }
    var v := LeadingRun(y, seps, ys);
    w := [d] + v;
    assert ps[0] == x && ps[|ps| - 1] == ys[|ys| - 1];
  }

  /** Text that `split(/\s+/)` cuts into two pieces is those pieces around a white-space run. */
  lemma SplitOnRunsOfTwo(s: string) returns (w: string)
    requires |SplitOnWhitespaceRuns(s)| == 2
    ensures var parts := SplitOnWhitespaceRuns(s);
      w != [] && Within(w, Whitespace) && s == parts[0] + w + parts[1]
  {
    var ps := SplitAt(s, Whitespace);
    var mid := ps[1..|ps| - 1];
    assert NonEmpty(mid) == [];
    NonEmptyNone(mid);
    forall k | 1 <= k < |ps| - 1 ensures ps[k] == [] {
      assert ps[k] == mid[k - 1];
    }
    w := AroundRun(s, Whitespace, ps);
  }

  // ---------------------------------------------------------------------
  // decimal numbers

  function DigitValue(c: char): nat
    requires IsDigit(c)
  {
    (c as int) - ('0' as int)
  }

  function DigitChar(d: nat): (c: char)
    requires d < 10
    ensures IsDigit(c) && DigitValue(c) == d
  {
    (('0' as int) + d) as char
  }

  /** The value of a string of decimal digits, most significant first. */
  function DigitsValue(s: string): nat
    requires AllDigits(s)
  {
    if s == [] then 0 else 10 * DigitsValue(s[..|s| - 1]) + DigitValue(s[|s| - 1])
  }

  /**
   * `parseInt(s, 10)` on a whole string: an optional sign and at least one
   * decimal digit; anything else is `None` (JavaScript's NaN).
   */
  function ParseInt(s: string): (r: Option<int>)
    ensures r.Some? ==> s != [] && NumberChar(s[0]) && forall i :: 1 <= i < |s| ==> IsDigit(s[i])
    ensures s != [] && AllDigits(s) ==> r == Some(DigitsValue(s))
  {
    var signed := |s| >= 1 && (s[0] == '-' || s[0] == '+');
    var body := if signed then s[1..] else s;
    if body == [] || !AllDigits(body) then None
    else
      var magnitude: int := DigitsValue(body);
      Some(if signed && s[0] == '-' then -magnitude else magnitude)
  }

  /** Texts `parseInt` reads as NaN: the empty text, a bare sign, and a letter. */
  lemma NotANumber()
    ensures ParseInt("").None? && ParseInt("-").None? && ParseInt("x").None?
  {
    var x := "x";
    assert |x| == 1 && x[0] == 'x';
    assert !(x[0] == '-' || x[0] == '+');
    assert !AllDigits(x);
  }

  /** `String(n)` for a natural number: its shortest decimal digit string. */
  function NatToString(n: nat): (s: string)
    ensures s != [] && AllDigits(s)
    ensures |s| > 1 ==> s[0] != '0'
  {
    if n < 10 then [DigitChar(n)] else NatToString(n / 10) + [DigitChar(n % 10)]
  }

  /**
   * `String(n)` for an integer, in plain decimal notation. JavaScript
   * switches to exponent notation from 10^21 on; the calculator only
   * renders prefixes, octets (-1..256) and 32-bit counts, far below that.
   */
  function IntToString(n: int): (s: string)
    ensures s != [] && IsDigit(s[|s| - 1])
    ensures forall i :: 0 <= i < |s| ==> IsDigit(s[i]) || s[i] == '-'
    ensures n >= 0 ==> AllDigits(s)
  {
    if n < 0 then "-" + NatToString(-n) else NatToString(n)
  }

  lemma {:induction false} DigitsOfNatToString(n: nat)
    ensures DigitsValue(NatToString(n)) == n
    decreases n
  {
    if n >= 10 {
      DigitsOfNatToString(n / 10);
      var s := NatToString(n);
      assert s[..|s| - 1] == NatToString(n / 10);
    }
  }

  /** `parseInt(String(n), 10) == n`. */
  lemma ParseIntToString(n: int)
    ensures ParseInt(IntToString(n)) == Some(n)
  {
    if n < 0 {
      DigitsOfNatToString(-n);
      assert IntToString(n)[1..] == NatToString(-n);
    } else {
      DigitsOfNatToString(n);
    }
  }
}
