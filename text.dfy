/** Python `str` behaviour the scraping pipeline relies on: whitespace,
    `str.split()` and `' '.join`, `str.split(sep)`, `str.startswith`, the `in`
    substring test, and `int`/`str` on non-negative decimal numbers. */
module Text {
  import opened Wrappers

  /** `str.isspace()`; it is also the set that `\s` matches in a `str` regex. */
  predicate IsSpace(c: char) {
    var n := c as int;
    (9 <= n <= 13) || (28 <= n <= 32) || n == 0x85 || n == 0xA0 || n == 0x1680
    || (0x2000 <= n <= 0x200A) || n == 0x2028 || n == 0x2029 || n == 0x202F
    || n == 0x205F || n == 0x3000
  }

  /** `s.startswith(prefix)` */
  predicate StartsWith(s: string, prefix: string) {
    |prefix| <= |s| && s[..|prefix|] == prefix
  }

  /** `s.endswith(suffix)` */
  predicate EndsWith(s: string, suffix: string) {
    |suffix| <= |s| && s[|s| - |suffix|..] == suffix
  }

  /** `sub in s` for strings: a substring test, not a token or host test. */
  predicate Contains(s: string, sub: string) {
    exists i | 0 <= i <= |s| - |sub| :: OccursAt(s, sub, i)
  }

  predicate OccursAt(s: string, sub: string, i: int) {
    0 <= i <= |s| - |sub| && s[i..i + |sub|] == sub
  }

  lemma NotContainsWithoutFirstChar(s: string, sub: string)
    requires |sub| > 0 && sub[0] !in s
    ensures !Contains(s, sub)
  {
    forall i | 0 <= i <= |s| - |sub| ensures !OccursAt(s, sub, i) {
      assert s[i..i + |sub|][0] == s[i] && s[i] in s;
    }
  }

  /** A piece produced by `str.split()`: non-empty, no whitespace inside. */
  predicate IsWord(w: string) {
    |w| > 0 && forall i | 0 <= i < |w| :: !IsSpace(w[i])
  }

  /** Length of the run of non-whitespace characters that starts `s`. */
  function WordLen(s: string): (k: nat)
    ensures k <= |s|
    ensures forall i | 0 <= i < k :: !IsSpace(s[i])
    ensures k < |s| ==> IsSpace(s[k])
  {
    if s == [] || IsSpace(s[0]) then 0 else 1 + WordLen(s[1..])
  }

  /** `s.split()` with no argument: the maximal runs of non-whitespace. */
  function Words(s: string): (ws: seq<string>)
    ensures forall i | 0 <= i < |ws| :: IsWord(ws[i])
    decreases |s|
  {
    if s == [] then []
    else if IsSpace(s[0]) then Words(s[1..])
    else
      var k := WordLen(s);
      [s[..k]] + Words(s[k..])
  }

  /** A non-space character put in front of `x` starts a word of its own
      when `x` is empty or starts with whitespace, and joins the first word
      of `x` otherwise. */
  lemma WordsCons(c: char, x: string)
    requires !IsSpace(c)
    ensures Words([c] + x) ==
      if x == [] || IsSpace(x[0]) then [[c]] + Words(x)
      else [[c] + Words(x)[0]] + Words(x)[1..]
  {
    var s := [c] + x;
    assert s[1..] == x;
    if x == [] || IsSpace(x[0]) {
      assert WordLen(s) == 1;
      assert s[..1] == [c];
    } else {
      var k := WordLen(x);
      assert WordLen(s) == 1 + k;
      assert s[..1 + k] == [c] + x[..k];
      assert s[1 + k..] == x[k..];
    }
  }

  /** `sep.join(parts)` */
  function Join(parts: seq<string>, sep: string): string {
    if |parts| == 0 then ""
    else if |parts| == 1 then parts[0]
    else parts[0] + sep + Join(parts[1..], sep)
  }

  /** Every whitespace character is a single space with a non-whitespace
      character on each side: so no leading or trailing whitespace, no
      newline, and no two spaces in a row. */
  predicate Collapsed(r: string) {
    forall i | 0 <= i < |r| && IsSpace(r[i]) ::
      r[i] == ' ' && 0 < i < |r| - 1 && !IsSpace(r[i - 1]) && !IsSpace(r[i + 1])
  }

  /** `' '.join(s.split())` */
  function CollapseWhitespace(s: string): string {
    Join(Words(s), " ")
  }

  lemma {:induction false} JoinWordsCollapsed(ws: seq<string>)
    requires forall i | 0 <= i < |ws| :: IsWord(ws[i])
    ensures var r := Join(ws, " ");
      Collapsed(r) && (|ws| > 0 ==> |r| > 0 && !IsSpace(r[0]) && !IsSpace(r[|r| - 1]))
  {
    if |ws| >= 2 {
      var w, j := ws[0], Join(ws[1..], " ");
      JoinWordsCollapsed(ws[1..]);
      var r := w + " " + j;
      assert Join(ws, " ") == r;
      forall i | 0 <= i < |r| && IsSpace(r[i])
        ensures r[i] == ' ' && 0 < i < |r| - 1 && !IsSpace(r[i - 1]) && !IsSpace(r[i + 1])
      {
        if i > |w| {
          assert r[i] == j[i - |w| - 1];
          assert r[i - 1] == j[i - |w| - 2];
          assert r[i + 1] == j[i - |w|];
        }
      }
    }
  }

  lemma {:induction false} WordLenOfWord(w: string, t: string)
    requires IsWord(w)
    requires t == [] || IsSpace(t[0])
    ensures WordLen(w + t) == |w|
  {
    assert (w + t)[1..] == w[1..] + t;
    if |w| > 1 {
      WordLenOfWord(w[1..], t);
    }
  }

  /** Splitting the joined words gives the words back. */
  lemma {:induction false} WordsOfJoin(ws: seq<string>)
    requires forall i | 0 <= i < |ws| :: IsWord(ws[i])
    ensures Words(Join(ws, " ")) == ws
  {
    if |ws| == 1 {
      WordLenOfWord(ws[0], "");
      assert ws[0] + "" == ws[0];
      assert ws[0][|ws[0]|..] == [];
    } else if |ws| >= 2 {
      var w, j := ws[0], Join(ws[1..], " ");
      var s := w + (" " + j);
      assert Join(ws, " ") == s;
      WordLenOfWord(w, " " + j);
      assert s[..|w|] == w;
      assert s[|w|..] == " " + j;
      assert (" " + j)[1..] == j;
      WordsOfJoin(ws[1..]);
    }
  }

  /** What the miner's snippet cleaning promises: the result is collapsed and
      keeps exactly the words of its input, in order. */
  lemma CollapseWhitespaceSpec(s: string)
    ensures Collapsed(CollapseWhitespace(s))
    ensures Words(CollapseWhitespace(s)) == Words(s)
  {
    JoinWordsCollapsed(Words(s));
    WordsOfJoin(Words(s));
  }

  /** `s.split(sep)` for a one-character separator. */
  function Split(s: string, sep: char): (parts: seq<string>)
    ensures |parts| >= 1
  {
    if s == [] then [""]
    else
      var rest := Split(s[1..], sep);
      if s[0] == sep then [""] + rest else [[s[0]] + rest[0]] + rest[1..]
  }

  lemma {:induction false} SplitAfterPiece(p: string, t: string, sep: char)
    requires sep !in p
    ensures Split(p + t, sep) == [p + Split(t, sep)[0]] + Split(t, sep)[1..]
  {
    if p != [] {
      assert (p + t)[1..] == p[1..] + t;
      SplitAfterPiece(p[1..], t, sep);
      assert [p[0]] + (p[1..] + Split(t, sep)[0]) == p + Split(t, sep)[0];
    } else {
      assert p + t == t;
      var parts := Split(t, sep);
      assert parts == [parts[0]] + parts[1..];
      assert p + parts[0] == parts[0];
    }
  }

  /** `sep.join(parts).split(sep) == parts` when no part holds the separator. */
  lemma {:induction false} SplitJoin(parts: seq<string>, sep: char)
    requires |parts| >= 1
    requires forall i | 0 <= i < |parts| :: sep !in parts[i]
    ensures Split(Join(parts, [sep]), sep) == parts
  {
    if |parts| == 1 {
      SplitAfterPiece(parts[0], "", sep);
      assert parts[0] + "" == parts[0];
    } else {
      var j := Join(parts[1..], [sep]);
      assert Join(parts, [sep]) == parts[0] + ([sep] + j);
      SplitAfterPiece(parts[0], [sep] + j, sep);
      assert ([sep] + j)[1..] == j;
      SplitJoin(parts[1..], sep);
      assert parts[0] + "" == parts[0];
    }
  }

  predicate IsDigit(c: char) {
    '0' <= c <= '9'
  }

  function DigitChar(d: nat): (c: char)
    requires d < 10
  {
    ('0' as int + d) as char
  }

  /** `str(n)` for a non-negative integer. */
  function NatToString(n: nat): (s: string)
    ensures |s| >= 1 && forall i | 0 <= i < |s| :: IsDigit(s[i])
  {
    if n < 10 then [DigitChar(n)] else NatToString(n / 10) + [DigitChar(n % 10)]
  }

  function DigitsValue(s: string): nat
    requires forall i | 0 <= i < |s| :: IsDigit(s[i])
  {
    if s == [] then 0
    else DigitsValue(s[..|s| - 1]) * 10 + DigitValue(s[|s| - 1])
  }

  function DigitValue(c: char): (d: nat)
    requires IsDigit(c)
    ensures d < 10
  {
    c as int - '0' as int
  }

  /** `int(s)` on a string of ASCII digits; anything else raises ValueError,
      which is `None` here. */
  function ParseNat(s: string): Option<nat> {
    if |s| > 0 && forall i | 0 <= i < |s| :: IsDigit(s[i]) then Some(DigitsValue(s)) else None
  }

  lemma {:induction false} ParseNatToString(n: nat)
    ensures ParseNat(NatToString(n)) == Some(n)
  {
    if n >= 10 {
      ParseNatToString(n / 10);
      var s := NatToString(n);
      assert s[..|s| - 1] == NatToString(n / 10);
      assert DigitValue(s[|s| - 1]) == n % 10;
      assert DigitsValue(s) == DigitsValue(NatToString(n / 10)) * 10 + n % 10;
    } else {
      var s := NatToString(n);
      assert s[..0] == [];
      assert DigitsValue(s) == n;
    }
  }

  lemma NatToStringHasNo(n: nat, c: char)
    requires !IsDigit(c)
    ensures c !in NatToString(n)
  {
  }
}
