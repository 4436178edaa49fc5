/** The handful of Python `str` operations the collector and the scorer
    rely on, defined on `string` (= `seq<char>`) with the properties the
    rest of the model needs: `strip()`, `split(sep)`, `split()`,
    `lower()`, `needle in hay`, `replace(' ', '%20')`, `rstrip('Z')` and
    `str(n)` for integers. */
module Text {

  /** The characters Python's `str.isspace()` accepts (and hence the ones
      `strip()` and `split()` without arguments treat as whitespace). */
  predicate IsSpace(c: char) {
    || c == ' ' || c == '\t' || c == '\n' || c == '\r'
    || c == '\U{0B}' || c == '\U{0C}'
    || ('\U{1C}' <= c <= '\U{1F}')
    || c == '\U{85}' || c == '\U{A0}' || c == '\U{1680}'
    || ('\U{2000}' <= c <= '\U{200A}')
    || c == '\U{2028}' || c == '\U{2029}' || c == '\U{202F}'
    || c == '\U{205F}' || c == '\U{3000}'
  }

  predicate AllSpace(s: string) {
    forall i :: 0 <= i < |s| ==> IsSpace(s[i])
  }

  predicate NoSpace(s: string) {
    forall i :: 0 <= i < |s| ==> !IsSpace(s[i])
  }

  /** No whitespace at either end: what `strip()` produces. */
  predicate Stripped(s: string) {
    s == [] || (!IsSpace(s[0]) && !IsSpace(s[|s| - 1]))
  }

  /** `r` is `s` with the whitespace run `s[..i]` and the whitespace run
      after `r` removed. */
  ghost predicate TrimmedAt(s: string, r: string, i: int) {
    && 0 <= i && i + |r| <= |s|
    && s[i..i + |r|] == r
    && AllSpace(s[..i])
    && AllSpace(s[i + |r|..])
  }

  // ---------------------------------------------------------------------
  // strip()
  // ---------------------------------------------------------------------

  function TrimStart(s: string): string
    decreases |s|
  {
    if s != [] && IsSpace(s[0]) then TrimStart(s[1..]) else s
  }

  function TrimEnd(s: string): string
    decreases |s|
  {
    if s != [] && IsSpace(s[|s| - 1]) then TrimEnd(s[..|s| - 1]) else s
  }

  /** `TrimStart` drops the leading whitespace run and nothing more. */
  lemma {:induction false} TrimStartSpec(s: string)
    ensures |TrimStart(s)| <= |s| && TrimStart(s) == s[|s| - |TrimStart(s)|..]
    ensures AllSpace(s[..|s| - |TrimStart(s)|])
    ensures TrimStart(s) == [] || !IsSpace(TrimStart(s)[0])
    decreases |s|
  {
    if s != [] && IsSpace(s[0]) {
      TrimStartSpec(s[1..]);
    }
  }

  /** `TrimEnd` drops the trailing whitespace run and nothing more. */
  lemma {:induction false} TrimEndSpec(s: string)
    ensures |TrimEnd(s)| <= |s| && TrimEnd(s) == s[..|TrimEnd(s)|]
    ensures AllSpace(s[|TrimEnd(s)|..])
    ensures TrimEnd(s) == [] || !IsSpace(TrimEnd(s)[|TrimEnd(s)| - 1])
    decreases |s|
  {
    if s != [] && IsSpace(s[|s| - 1]) {
      var p := s[..|s| - 1];
      TrimEndSpec(p);
      var n := |TrimEnd(p)|;
      assert s[n..] == p[n..] + [s[|s| - 1]];
      assert s[..n] == p[..n];
    }
  }

  /** Python's `s.strip()`. */
  function Strip(s: string): (r: string)
    ensures Stripped(r)
    ensures |r| <= |s|
  {
    var t := TrimStart(s);
    TrimStartSpec(s);
    TrimEndSpec(t);
    var r := TrimEnd(t);
    assert r == [] || r[0] == t[0];
    r
  }

  /** `strip()` removes whitespace and nothing else, and only at the ends. */
  lemma StripTrims(s: string)
    ensures exists i :: TrimmedAt(s, Strip(s), i)
  {
    var t := TrimStart(s);
    var r := TrimEnd(t);
    TrimStartSpec(s);
    TrimEndSpec(t);
    var i := |s| - |t|;
    assert s[i..i + |r|] == r;
    assert s[..i] == s[..|s| - |t|];
    assert s[i + |r|..] == t[|r|..];
    assert TrimmedAt(s, r, i);
    assert Strip(s) == r;
  }

  lemma {:induction false} TrimStartAfterSpaces(a: string, t: string)
    requires AllSpace(a)
    requires t == [] || !IsSpace(t[0])
    ensures TrimStart(a + t) == t
    decreases |a|
  {
    if a != [] {
      assert (a + t)[1..] == a[1..] + t;
      TrimStartAfterSpaces(a[1..], t);
    }
  }

  lemma {:induction false} TrimEndBeforeSpaces(t: string, b: string)
    requires AllSpace(b)
    requires t == [] || !IsSpace(t[|t| - 1])
    ensures TrimEnd(t + b) == t
    decreases |b|
  {
    if b != [] {
      assert (t + b)[..|t + b| - 1] == t + b[..|b| - 1];
      TrimEndBeforeSpaces(t, b[..|b| - 1]);
    } else {
      assert t + b == t;
    }
  }

  /** `strip()` is determined by its result: whatever whitespace surrounds
      a stripped string is exactly what `strip()` removes. */
  lemma StripUnique(a: string, m: string, b: string)
    requires AllSpace(a) && AllSpace(b) && Stripped(m)
    ensures Strip(a + m + b) == m
  {
    if m == [] {
      assert a + m + b == a + b;
      assert AllSpace(a + b);
      assert (a + b)[..|a + b|] == a + b;
      TrimStartAfterSpaces(a + b, []);
      assert a + b + [] == a + b;
    } else {
      assert a + m + b == a + (m + b);
      TrimStartAfterSpaces(a, m + b);
      TrimEndBeforeSpaces(m, b);
    }
  }

  lemma StripStripped(m: string)
    requires Stripped(m)
    ensures Strip(m) == m
  {
    StripUnique([], m, []);
    assert [] + m + [] == m;
  }

  // ---------------------------------------------------------------------
  // split(sep) and its inverse ",".join(...)
  // ---------------------------------------------------------------------

  /** `[sep].join(ps)` (inverse of `split(sep)`). */
  function Join(ps: seq<string>, sep: char): string
    decreases |ps|
  {
    if |ps| == 0 then ""
    else if |ps| == 1 then ps[0]
    else ps[0] + [sep] + Join(ps[1..], sep)
  }

  /** Python's `s.split(sep)` for a one-character separator: always at
      least one piece, no piece holds the separator, and joining the
      pieces back gives `s`. */
  function Split(s: string, sep: char): (r: seq<string>)
    ensures |r| >= 1
    ensures forall k :: 0 <= k < |r| ==> sep !in r[k]
    ensures Join(r, sep) == s
    decreases |s|
  {
    if |s| == 0 then [""]
    else
      var rest := Split(s[1..], sep);
      if s[0] == sep then
        assert Join([""] + rest, sep) == "" + [sep] + Join(rest, sep);
        assert s == [sep] + s[1..];
        [""] + rest
      else
        var r := [[s[0]] + rest[0]] + rest[1..];
        assert forall k :: 1 <= k < |r| ==> r[k] == rest[k];
        assert Join(r, sep) == [s[0]] + Join(rest, sep) by {
          if |rest| > 1 {
            assert r[1..] == rest[1..];
          }
        }
        assert s == [s[0]] + s[1..];
        r
  }

  lemma {:induction false} SplitAfterPiece(p: string, t: string, sep: char)
    requires sep !in p
    ensures Split(p + t, sep) == [p + Split(t, sep)[0]] + Split(t, sep)[1..]
    decreases |p|
  {
    if p == [] {
      assert p + t == t;
      var r := Split(t, sep);
      assert p + r[0] == r[0];
      assert r == [r[0]] + r[1..];
    } else {
      assert (p + t)[1..] == p[1..] + t;
      assert sep !in p[1..];
      SplitAfterPiece(p[1..], t, sep);
      assert [p[0]] + (p[1..] + Split(t, sep)[0]) == p + Split(t, sep)[0];
    }
  }

  /** `split(sep)` undoes `[sep].join(...)` on pieces free of `sep`. */
  lemma {:induction false} SplitJoin(ps: seq<string>, sep: char)
    requires |ps| >= 1
    requires forall k :: 0 <= k < |ps| ==> sep !in ps[k]
    ensures Split(Join(ps, sep), sep) == ps
    decreases |ps|
  {
    if |ps| == 1 {
      SplitAfterPiece(ps[0], "", sep);
      assert ps[0] + "" == ps[0];
    } else {
      var tail := Join(ps[1..], sep);
      SplitJoin(ps[1..], sep);
      assert ps[0] + [sep] + tail == ps[0] + ([sep] + tail);
      SplitAfterPiece(ps[0], [sep] + tail, sep);
      assert ([sep] + tail)[1..] == tail;
      assert Split([sep] + tail, sep) == [""] + ps[1..];
      assert ps[0] + "" == ps[0];
      assert ps == [ps[0]] + ps[1..];
    }
  }

  // ---------------------------------------------------------------------
  // split() without arguments: the maximal runs of non-whitespace
  // ---------------------------------------------------------------------

  function Concat(ws: seq<string>): string
    decreases |ws|
  {
    if ws == [] then "" else ws[0] + Concat(ws[1..])
  }

  /** `s` with every whitespace character removed. */
  function NonSpace(s: string): string
    decreases |s|
  {
    if s == [] then ""
    else if IsSpace(s[0]) then NonSpace(s[1..])
    else [s[0]] + NonSpace(s[1..])
  }

  /** Python's `s.split()`: the tokens are non-empty, hold no whitespace,
      and together spell out exactly the non-whitespace characters of `s`. */
  function Words(s: string): (r: seq<string>)
    ensures forall k :: 0 <= k < |r| ==> r[k] != [] && NoSpace(r[k])
    ensures s != [] && !IsSpace(s[0]) ==> r != [] && r[0][0] == s[0]
    ensures Concat(r) == NonSpace(s)
    decreases |s|
  {
    if s == [] then []
    else
      var w := Words(s[1..]);
      if IsSpace(s[0]) then w
      else if |s| > 1 && !IsSpace(s[1]) then
        var r := [[s[0]] + w[0]] + w[1..];
        assert r[1..] == w[1..];
        assert w == [w[0]] + w[1..];
        assert forall k :: 1 <= k < |r| ==> r[k] == w[k];
        r
      else
        var r := [[s[0]]] + w;
        assert r[1..] == w;
        r
  }

  lemma {:induction false} WordsAfterSpaces(a: string, t: string)
    requires AllSpace(a)
    ensures Words(a + t) == Words(t)
    decreases |a|
  {
    if a != [] {
      assert (a + t)[1..] == a[1..] + t;
      WordsAfterSpaces(a[1..], t);
    } else {
      assert a + t == t;
    }
  }

  lemma {:induction false} WordsAfterWord(w: string, t: string)
    requires w != [] && NoSpace(w)
    requires t == [] || IsSpace(t[0])
    ensures Words(w + t) == [w] + Words(t)
    decreases |w|
  {
    assert (w + t)[1..] == w[1..] + t;
    if |w| == 1 {
      assert w[1..] + t == t;
      assert w == [w[0]];
    } else {
      WordsAfterWord(w[1..], t);
      assert (w + t)[1] == w[1];
      var rest := Words(w[1..] + t);
      assert rest[0] == w[1..] && rest[1..] == Words(t);
      assert [w[0]] + w[1..] == w;
    }
  }

  /** `split()` undoes `" ".join(...)` on non-empty whitespace-free tokens. */
  lemma {:induction false} WordsJoin(ws: seq<string>)
    requires forall k :: 0 <= k < |ws| ==> ws[k] != [] && NoSpace(ws[k])
    ensures Words(Join(ws, ' ')) == ws
    decreases |ws|
  {
    if |ws| == 1 {
      WordsAfterWord(ws[0], "");
      assert ws[0] + "" == ws[0];
    } else if |ws| > 1 {
      var tail := Join(ws[1..], ' ');
      WordsJoin(ws[1..]);
      assert ws[0] + [' '] + tail == ws[0] + ([' '] + tail);
      WordsAfterWord(ws[0], [' '] + tail);
      WordsAfterSpaces([' '], tail);
    }
  }

  // ---------------------------------------------------------------------
  // lower()
  // ---------------------------------------------------------------------

  function LowerChar(c: char): char {
    if 'A' <= c <= 'Z' then (c as int + 32) as char else c
  }

  /** `s.lower()` on ASCII letters; every other character is kept. */
  function Lower(s: string): (r: string)
    ensures |r| == |s|
    ensures forall i :: 0 <= i < |s| ==> r[i] == LowerChar(s[i])
  {
    seq(|s|, i requires 0 <= i < |s| => LowerChar(s[i]))
  }

  lemma LowerIdempotent(s: string)
    ensures Lower(Lower(s)) == Lower(s)
  {
  }

  // ---------------------------------------------------------------------
  // needle in hay
  // ---------------------------------------------------------------------

  ghost predicate OccursAt(needle: string, hay: string, i: int) {
    0 <= i <= |hay| - |needle| && hay[i..i + |needle|] == needle
  }

  ghost predicate IsInfix(needle: string, hay: string) {
    exists i :: OccursAt(needle, hay, i)
  }

  /** Python's `needle in hay` on strings (the empty needle is in every
      string). */
  function Contains(hay: string, needle: string): (b: bool)
    ensures b <==> IsInfix(needle, hay)
    decreases |hay|
  {
    if needle <= hay then
      assert OccursAt(needle, hay, 0);
      true
    else if hay == [] then
      false
    else
      var b := Contains(hay[1..], needle);
      assert b ==> IsInfix(needle, hay) by {
        if b {
          var i :| OccursAt(needle, hay[1..], i);
          assert hay[i + 1..i + 1 + |needle|] == needle;
          assert OccursAt(needle, hay, i + 1);
        }
      }
      assert IsInfix(needle, hay) ==> b by {
        if IsInfix(needle, hay) {
          var i :| OccursAt(needle, hay, i);
          assert i != 0;
          assert hay[1..][i - 1..i - 1 + |needle|] == needle;
          assert OccursAt(needle, hay[1..], i - 1);
        }
      }
      b
  }

  // ---------------------------------------------------------------------
  // replace(' ', '%20') and its inverse
  // ---------------------------------------------------------------------

  function CountChar(s: string, c: char): nat
    decreases |s|
  {
    if s == [] then 0 else (if s[0] == c then 1 else 0) + CountChar(s[1..], c)
  }

  /** Python's `s.replace(' ', '%20')`: no space survives, and each space
      grows the string by two characters. */
  function EncodeSpaces(s: string): (r: string)
    ensures ' ' !in r
    ensures |r| == |s| + 2 * CountChar(s, ' ')
    decreases |s|
  {
    if s == [] then ""
    else (if s[0] == ' ' then "%20" else [s[0]]) + EncodeSpaces(s[1..])
  }

  /** Every `%20` turned back into a space, left to right. */
  function DecodeSpaces(r: string): string
    decreases |r|
  {
    if |r| >= 3 && r[..3] == "%20" then " " + DecodeSpaces(r[3..])
    else if r == [] then ""
    else [r[0]] + DecodeSpaces(r[1..])
  }

  /** On text without `%` the escaping loses nothing: decoding gives the
      original back. */
  lemma {:induction false} DecodeEncodeSpaces(s: string)
    requires '%' !in s
    ensures DecodeSpaces(EncodeSpaces(s)) == s
    decreases |s|
  {
    if s != [] {
      var e := EncodeSpaces(s[1..]);
      assert '%' !in s[1..];
      DecodeEncodeSpaces(s[1..]);
      if s[0] == ' ' {
        assert ("%20" + e)[..3] == "%20";
        assert ("%20" + e)[3..] == e;
      } else {
        assert ([s[0]] + e)[0] == s[0];
        assert ([s[0]] + e)[1..] == e;
      }
    }
  }

  /** The escaping works character by character: it distributes over
      concatenation. */
  lemma {:induction false} EncodeSpacesAppend(a: string, b: string)
    ensures EncodeSpaces(a + b) == EncodeSpaces(a) + EncodeSpaces(b)
    decreases |a|
  {
    if a == [] {
      assert a + b == b;
    } else {
      assert (a + b)[0] == a[0];
      assert (a + b)[1..] == a[1..] + b;
      EncodeSpacesAppend(a[1..], b);
    }
  }

  /** A space becomes `%20`; every other character, `%` included, is kept. */
  lemma EncodeSpacesChar(c: char)
    ensures EncodeSpaces([c]) == if c == ' ' then "%20" else [c]
  {
    assert [c][1..] == [];
  }

  /** Text without spaces passes through the escaping unchanged. */
  lemma {:induction false} EncodeSpacesIdentity(s: string)
    requires ' ' !in s
    ensures EncodeSpaces(s) == s
    decreases |s|
  {
    if s != [] {
      assert ' ' !in s[1..];
      EncodeSpacesIdentity(s[1..]);
    }
  }

  // ---------------------------------------------------------------------
  // rstrip(c)
  // ---------------------------------------------------------------------

  /** Python's `s.rstrip(c)` for a single character `c`. */
  function RStripChar(s: string, c: char): (r: string)
    ensures r <= s
    ensures forall k :: |r| <= k < |s| ==> s[k] == c
    ensures r == [] || r[|r| - 1] != c
    decreases |s|
  {
    if s != [] && s[|s| - 1] == c then RStripChar(s[..|s| - 1], c) else s
  }

  // ---------------------------------------------------------------------
  // str(n) for integers
  // ---------------------------------------------------------------------

  function Digit(d: nat): char
    requires d < 10
  {
    "0123456789"[d]
  }

  predicate IsDigit(c: char) {
    '0' <= c <= '9'
  }

  /** The decimal notation of `n`, as Python's `str(n)` writes it. */
  function NatToString(n: nat): (r: string)
    ensures |r| >= 1
    ensures forall k :: 0 <= k < |r| ==> IsDigit(r[k])
    ensures r[0] == '0' ==> n == 0 && r == "0"
    decreases n
  {
    if n < 10 then [Digit(n)] else NatToString(n / 10) + [Digit(n % 10)]
  }

  function IntToString(i: int): string {
    if i < 0 then "-" + NatToString(-i) else NatToString(i)
  }

  /** The value of a string of decimal digits. */
  function ParseNat(s: string): nat
    requires forall k :: 0 <= k < |s| ==> IsDigit(s[k])
    decreases |s|
  {
    if s == [] then 0
    else
      assert IsDigit(s[|s| - 1]);
      10 * ParseNat(s[..|s| - 1]) + (s[|s| - 1] as int - '0' as int)
  }

  /** Reading the decimal notation back gives the number. */
  lemma {:induction false} ParseNatToString(n: nat)
    ensures ParseNat(NatToString(n)) == n
    decreases n
  {
    if n >= 10 {
      var s := NatToString(n);
      assert s[..|s| - 1] == NatToString(n / 10);
      ParseNatToString(n / 10);
    }
  }
}
