/** The record merger: the university table is the anchor, left-joined on a
    normalised name with the successful deadlines and then with the faculty
    grouped by affiliation, projected onto seven columns with the deadline
    and professor columns null-filled. A `None` cell is a pandas null (an
    empty CSV cell, or a column the input file does not have). */
module Merger {
  import opened Wrappers
  import opened Text
  import Sorting

  const NotFound := "Not Found"
  const NoUrl := "N/A"

  /** A row of the university file: Name, Website, Data, Rankings. */
  datatype UniversityRow = UniversityRow(name: Option<string>, website: Option<string>,
                                         data: Option<string>, rankings: Option<string>)

  /** A row of the successful-deadlines file. */
  datatype StoredDeadline = StoredDeadline(university: Option<string>, info: Option<string>, url: Option<string>)

  /** A row of the faculty file: name, affiliation, homepage, dblp, areas. */
  datatype Professor = Professor(name: Option<string>, affiliation: Option<string>, homepage: Option<string>,
                                 dblp: Option<string>, areas: Option<string>)

  /** One affiliation with its faculty rows (the `professors_list` cell). */
  datatype ProfessorGroup = ProfessorGroup(affiliation: string, members: seq<Professor>)

  /** A row of the final table, its seven columns in order. A `None` cell
      is a null; the professors cell holds the affiliation's faculty records
      (written out as a JSON list), and the empty list is the "[]" fill. */
  datatype FinalRecord = FinalRecord(universityName: Option<string>, universityWebsite: Option<string>,
                                     universityData: Option<string>, rankingsData: Option<string>,
                                     deadlineInfo: Option<string>, deadlineUrl: Option<string>,
                                     professors: Option<seq<Professor>>)

  // ---------------------------------------------------------------------
  // normalize_name

  function LowerChar(c: char): char {
    if 'A' <= c <= 'Z' then (c as int + 32) as char else c
  }

  /** `s.lower()` on ASCII letters. */
  function Lower(s: string): string {
    seq(|s|, i requires 0 <= i < |s| => LowerChar(s[i]))
  }

  function StripStart(s: string): string {
    if s != [] && IsSpace(s[0]) then StripStart(s[1..]) else s
  }

  function StripEnd(s: string): string {
    if s != [] && IsSpace(s[|s| - 1]) then StripEnd(s[..|s| - 1]) else s
  }

  /** `s.strip()` */
  function Strip(s: string): string {
    StripEnd(StripStart(s))
  }

  /** The characters `[a-z0-9\s-]` lets through. */
  predicate Kept(c: char) {
    ('a' <= c <= 'z') || ('0' <= c <= '9') || IsSpace(c) || c == '-'
  }

  /** `re.sub(r'[^a-z0-9\s-]', '', s)` */
  function DeleteUnkept(s: string): (r: string)
    ensures forall i | 0 <= i < |r| :: Kept(r[i])
  {
    if s == [] then []
    else (if Kept(s[0]) then [s[0]] else []) + DeleteUnkept(s[1..])
  }

  /** Length of the whitespace run that starts `s`. */
  function SpaceRun(s: string): (k: nat)
    ensures k <= |s|
    ensures forall i | 0 <= i < k :: IsSpace(s[i])
    ensures k < |s| ==> !IsSpace(s[k])
  {
    if s != [] && IsSpace(s[0]) then 1 + SpaceRun(s[1..]) else 0
  }

  /** `re.sub(r'\s+', ' ', s)`: each whitespace run becomes one space. */
  function SqueezeSpaces(s: string): (r: string)
    ensures |r| <= |s|
    decreases |s|
  {
    if s == [] then []
    else if IsSpace(s[0]) then [' '] + SqueezeSpaces(s[SpaceRun(s)..])
    else [s[0]] + SqueezeSpaces(s[1..])
  }

  predicate SqueezedFrom(s: string, r: string) {
    && (forall i | 0 <= i < |r| :: r[i] == ' ' || (r[i] in s && !IsSpace(r[i])))
    && (forall i | 0 <= i < |r| - 1 :: !(IsSpace(r[i]) && IsSpace(r[i + 1])))
    && (s != [] && !IsSpace(s[0]) ==> r != [] && r[0] == s[0])
  }

  /** After squeezing, every character is a single space or a non-space
      character of the input, no two whitespace characters are adjacent, the
      words are the input's words in order, and the result is empty, or
      starts or ends with whitespace, exactly when the input does: each
      whitespace run has become one space and nothing else has changed. */
  lemma SqueezeShape(s: string)
    ensures var r := SqueezeSpaces(s);
      && SqueezedFrom(s, r)
      && Words(r) == Words(s)
      && (r == [] <==> s == [])
      && (s != [] ==> (IsSpace(r[0]) <==> IsSpace(s[0])) && (IsSpace(r[|r| - 1]) <==> IsSpace(s[|s| - 1])))
  {
    SqueezeCharacters(s);
    SqueezeKeepsWords(s);
  }

  /** Skipping the whitespace run that starts `s` leaves its words alone. */
  lemma {:induction false} WordsSkipRun(s: string)
    ensures Words(s[SpaceRun(s)..]) == Words(s)
    decreases |s|
  {
    if s != [] && IsSpace(s[0]) {
      WordsSkipRun(s[1..]);
      assert s[SpaceRun(s)..] == s[1..][SpaceRun(s[1..])..];
    }
  }

  /** Squeezing keeps the words, emptiness, and whether the text starts or
      ends with whitespace. */
  ghost predicate SqueezeKeeps(s: string) {
    var r := SqueezeSpaces(s);
    && Words(r) == Words(s)
    && (r == [] <==> s == [])
    && (s != [] ==> (IsSpace(r[0]) <==> IsSpace(s[0])) && (IsSpace(r[|r| - 1]) <==> IsSpace(s[|s| - 1])))
  }

  lemma {:induction false} SqueezeKeepsWords(s: string)
    ensures SqueezeKeeps(s)
    decreases |s|
  {
    if s != [] {
      if IsSpace(s[0]) {
        SqueezeKeepsWords(s[SpaceRun(s)..]);
        SqueezeKeepsAfterRun(s);
      } else {
        SqueezeKeepsWords(s[1..]);
        SqueezeKeepsAfterChar(s);
      }
    }
  }

  lemma SqueezeKeepsAfterRun(s: string)
    requires s != [] && IsSpace(s[0])
    requires SqueezeKeeps(s[SpaceRun(s)..])
    ensures SqueezeKeeps(s)
  {
    var r, k := SqueezeSpaces(s), SpaceRun(s);
    var rest := SqueezeSpaces(s[k..]);
    WordsSkipRun(s);
    assert r == [' '] + rest;
    assert r[1..] == rest;
    if k < |s| {
      assert s[|s| - 1] == s[k..][|s| - k - 1];
      assert r[|r| - 1] == rest[|rest| - 1];
    }
  }

  lemma SqueezeKeepsAfterChar(s: string)
    requires s != [] && !IsSpace(s[0])
    requires SqueezeKeeps(s[1..])
    ensures SqueezeKeeps(s)
  {
    var r, rest := SqueezeSpaces(s), SqueezeSpaces(s[1..]);
    assert s == [s[0]] + s[1..];
    assert r == [s[0]] + rest;
    WordsAfterChar(s[0], rest, s[1..]);
    if |s| > 1 {
      assert s[|s| - 1] == s[1..][|s| - 2];
      assert r[|r| - 1] == rest[|rest| - 1];
    }
  }

  /** A non-space character in front of two texts with the same words and
      the same leading whitespace gives the same words. */
  lemma WordsAfterChar(c: char, x: string, y: string)
    requires !IsSpace(c) && Words(x) == Words(y)
    requires (x == [] <==> y == []) && (x != [] ==> (IsSpace(x[0]) <==> IsSpace(y[0])))
    ensures Words([c] + x) == Words([c] + y)
  {
    WordsCons(c, x);
    WordsCons(c, y);
  }

  lemma {:induction false} SqueezeCharacters(s: string)
    ensures SqueezedFrom(s, SqueezeSpaces(s))
    decreases |s|
  {
    if s != [] {
      var k := if IsSpace(s[0]) then SpaceRun(s) else 1;
      var rest := SqueezeSpaces(s[k..]);
      SqueezeCharacters(s[k..]);
      assert forall i | 0 <= i < |rest| :: rest[i] in s[k..] ==> rest[i] in s;
      var r := SqueezeSpaces(s);
      assert r == (if IsSpace(s[0]) then [' '] else [s[0]]) + rest;
      if IsSpace(s[0]) && k < |s| {
        assert !IsSpace(s[k]);
      }
    }
  }

  /** A character a normalised name may hold: `[a-z0-9 -]`. */
  predicate NormalChar(c: char) {
    ('a' <= c <= 'z') || ('0' <= c <= '9') || c == ' ' || c == '-'
  }

  /** `normalize_name`: "" for a null; otherwise lower-case, strip, delete
      what is outside `[a-z0-9\s-]`, squeeze whitespace runs. The result
      holds only `[a-z0-9 -]` and never two spaces in a row. */
  function NormalizeName(name: Option<string>): (r: string)
    ensures name.None? ==> r == ""
    ensures forall i | 0 <= i < |r| :: NormalChar(r[i])
    ensures forall i | 0 <= i < |r| - 1 :: !(r[i] == ' ' && r[i + 1] == ' ')
  {
    match name
    case None => ""
    case Some(s) =>
      var d := DeleteUnkept(Strip(Lower(s)));
      var r := SqueezeSpaces(d);
      SqueezedAlphabet(d, r);
      r
  }

  /** Squeezing text of `[a-z0-9\s-]` leaves `[a-z0-9 -]` with no two
      spaces in a row. */
  lemma SqueezedAlphabet(d: string, r: string)
    requires forall i | 0 <= i < |d| :: Kept(d[i])
    requires r == SqueezeSpaces(d)
    ensures forall i | 0 <= i < |r| :: NormalChar(r[i])
    ensures forall i | 0 <= i < |r| - 1 :: !(r[i] == ' ' && r[i + 1] == ' ')
  {
    SqueezeCharacters(d);
    forall i | 0 <= i < |r| ensures NormalChar(r[i]) {
      if r[i] != ' ' {
        assert r[i] in d && !IsSpace(r[i]);
        var j :| 0 <= j < |d| && d[j] == r[i];
        assert Kept(d[j]);
      }
    }
  }

  /** Names that differ only in ASCII letter case normalise equally. */
  lemma NormalizeIgnoresCase(a: string, b: string)
    requires |a| == |b| && forall i | 0 <= i < |a| :: LowerChar(a[i]) == LowerChar(b[i])
    ensures NormalizeName(Some(a)) == NormalizeName(Some(b))
  {
    assert Lower(a) == Lower(b);
  }

  lemma DeleteUnkeptAppend(s: string, t: string)
    ensures DeleteUnkept(s + t) == DeleteUnkept(s) + DeleteUnkept(t)
  {
    if s != [] {
      assert (s + t)[1..] == s[1..] + t;
      DeleteUnkeptAppend(s[1..], t);
    } else {
      assert s + t == t;
    }
  }

  lemma DeleteUnkeptKeeps(s: string)
    requires forall i | 0 <= i < |s| :: Kept(s[i])
    ensures DeleteUnkept(s) == s
  {
  }

  /** Squeezing a space-free piece followed by anything squeezes the rest. */
  lemma {:induction false} SqueezeAfterWord(w: string, t: string)
    requires forall i | 0 <= i < |w| :: !IsSpace(w[i])
    ensures SqueezeSpaces(w + t) == w + SqueezeSpaces(t)
  {
    if w != [] {
      assert (w + t)[1..] == w[1..] + t;
      SqueezeAfterWord(w[1..], t);
    } else {
      assert w + t == t;
    }
  }

  /** A whitespace run followed by a non-space becomes one space. */
  lemma {:induction false} SqueezeRun(run: string, t: string)
    requires |run| > 0 && forall i | 0 <= i < |run| :: IsSpace(run[i])
    requires t == [] || !IsSpace(t[0])
    ensures SqueezeSpaces(run + t) == " " + SqueezeSpaces(t)
  {
    RunLength(run, t);
    assert (run + t)[|run|..] == t;
  }

  lemma {:induction false} RunLength(run: string, t: string)
    requires forall i | 0 <= i < |run| :: IsSpace(run[i])
    requires t == [] || !IsSpace(t[0])
    ensures SpaceRun(run + t) == |run|
  {
    if run != [] {
      assert (run + t)[1..] == run[1..] + t;
      RunLength(run[1..], t);
    } else {
      assert run + t == t;
    }
  }

  lemma StripUnchanged(s: string)
    requires s != [] && !IsSpace(s[0]) && !IsSpace(s[|s| - 1])
    ensures Strip(s) == s
  {
  }

  lemma LowerAppend(s: string, t: string)
    ensures Lower(s + t) == Lower(s) + Lower(t)
  {
  }

  predicate LowerAlnumChar(c: char) {
    ('a' <= c <= 'z') || ('0' <= c <= '9')
  }

  /** A non-empty run of lower-case letters and digits. */
  predicate LowerAlnum(w: string) {
    w != [] && forall i | 0 <= i < |w| :: LowerAlnumChar(w[i])
  }

  /** Characters the deletion removes even after lower-casing. */
  predicate Dropped(p: string) {
    forall i | 0 <= i < |p| :: !Kept(LowerChar(p[i])) && !IsSpace(p[i])
  }

  lemma {:induction false} DeleteDropped(p: string)
    requires Dropped(p)
    ensures DeleteUnkept(Lower(p)) == []
  {
    if p != [] {
      LowerAppend([p[0]], p[1..]);
      assert p == [p[0]] + p[1..];
      DeleteUnkeptAppend(Lower([p[0]]), Lower(p[1..]));
      DeleteDropped(p[1..]);
    }
  }

  lemma {:induction false} LowerSpaces(run: string)
    requires forall i | 0 <= i < |run| :: IsSpace(run[i])
    ensures Lower(run) == run
  {
  }

  predicate Spaces(run: string) {
    |run| > 0 && forall i | 0 <= i < |run| :: IsSpace(run[i])
  }

  /** Lower-casing `a + run + b + p` when `a` and `b` lower to words. */
  lemma {:induction false} LowerPieces(a: string, run: string, b: string, p: string)
    requires Spaces(run)
    ensures Lower(a + run + b + p) == Lower(a) + run + Lower(b) + Lower(p)
  {
    LowerSpaces(run);
    LowerAppend(a + run + b, p);
    LowerAppend(a + run, b);
    LowerAppend(a, run);
  }

  /** The last character of a dropped piece survives neither the strip nor
      the deletion. */
  lemma DroppedLast(p: string)
    requires |p| > 0 && Dropped(p)
    ensures !IsSpace(Lower(p)[|p| - 1])
  {
    assert Lower(p)[|p| - 1] == LowerChar(p[|p| - 1]);
    assert !Kept(LowerChar(p[|p| - 1]));
  }

  lemma {:induction false} KeptWords(w1: string, run: string, w2: string)
    requires LowerAlnum(w1) && LowerAlnum(w2) && Spaces(run)
    ensures DeleteUnkept(w1 + run + w2) == w1 + run + w2
  {
    var s := w1 + run + w2;
    forall i | 0 <= i < |s| ensures Kept(s[i]) {
      if i < |w1| {
        assert s[i] == w1[i];
      } else if i < |w1| + |run| {
        assert s[i] == run[i - |w1|];
      } else {
        assert s[i] == w2[i - |w1| - |run|];
      }
    }
    DeleteUnkeptKeeps(s);
  }

  lemma SpaceFree(w: string)
    requires LowerAlnum(w)
    ensures forall i | 0 <= i < |w| :: !IsSpace(w[i])
  {
  }

  lemma SqueezeWordFirst(w: string, t: string)
    requires LowerAlnum(w)
    ensures SqueezeSpaces(w + t) == w + SqueezeSpaces(t)
  {
    SpaceFree(w);
    SqueezeAfterWord(w, t);
  }

  lemma SqueezeRunFirst(run: string, w: string, tail: string)
    requires LowerAlnum(w) && Spaces(run)
    ensures SqueezeSpaces(run + (w + tail)) == " " + SqueezeSpaces(w + tail)
  {
    SpaceFree(w);
    assert (w + tail)[0] == w[0];
    SqueezeRun(run, w + tail);
  }

  lemma Regroup(a: string, b: string, c: string, d: string)
    ensures a + b + c + d == a + (b + (c + d))
  {
  }

  lemma {:induction false} SqueezeWords(w1: string, run: string, w2: string, tail: string)
    requires LowerAlnum(w1) && LowerAlnum(w2) && Spaces(run)
    requires SqueezeSpaces(tail) == tail
    ensures SqueezeSpaces(w1 + run + w2 + tail) == w1 + " " + w2 + tail
  {
    var rest := w2 + tail;
    calc {
      SqueezeSpaces(w1 + run + w2 + tail);
      { Regroup(w1, run, w2, tail); }
      SqueezeSpaces(w1 + (run + rest));
      { SqueezeWordFirst(w1, run + rest); }
      w1 + SqueezeSpaces(run + rest);
      { SqueezeRunFirst(run, w2, tail); }
      w1 + (" " + SqueezeSpaces(rest));
      { SqueezeWordFirst(w2, tail); }
      w1 + (" " + (w2 + tail));
      { Regroup(w1, " ", w2, tail); }
      w1 + " " + w2 + tail;
    }
  }

  /** Two words, whatever their case, separated by any whitespace run and
      followed by any punctuation, normalise to the lower-case words one
      space apart. */
  lemma {:induction false} NormalizeTwoWords(a: string, run: string, b: string, p: string)
    requires LowerAlnum(Lower(a)) && LowerAlnum(Lower(b)) && Spaces(run)
    requires Dropped(p)
    ensures NormalizeName(Some(a + run + b + p)) == Lower(a) + " " + Lower(b)
  {
    var w1, w2 := Lower(a), Lower(b);
    LowerPieces(a, run, b, p);
    var lowered := w1 + run + w2 + Lower(p);
    SpaceFree(w1);
    SpaceFree(w2);
    if p != [] {
      DroppedLast(p);
    }
    assert lowered[0] == w1[0];
    assert lowered[|lowered| - 1] == if p == [] then w2[|w2| - 1] else Lower(p)[|p| - 1];
    StripUnchanged(lowered);
    DeleteUnkeptAppend(w1 + run + w2, Lower(p));
    DeleteDropped(p);
    KeptWords(w1, run, w2);
    assert w1 + run + w2 + [] == w1 + run + w2;
    SqueezeWords(w1, run, w2, []);
    assert w1 + " " + w2 + [] == w1 + " " + w2;
  }

  /** The promised example: "Tufts University!" and "tufts   university"
      both normalise to "tufts university" (the literals are written as
      concatenations of their words). */
  lemma TuftsExample()
    ensures NormalizeName(Some("Tufts" + " " + "University" + "!")) == "tufts" + " " + "university"
    ensures NormalizeName(Some("tufts" + "   " + "university")) == "tufts" + " " + "university"
  {
    TuftsPunctuated();
    TuftsSpaced();
  }

  lemma TuftsPunctuated()
    ensures NormalizeName(Some("Tufts" + " " + "University" + "!")) == "tufts" + " " + "university"
  {
    assert Lower("Tufts") == "tufts" && Lower("University") == "university";
    assert LowerAlnum("tufts") && LowerAlnum("university");
    assert Spaces(" ") && Dropped("!");
    NormalizeTwoWords("Tufts", " ", "University", "!");
  }

  lemma TuftsSpaced()
    ensures NormalizeName(Some("tufts" + "   " + "university")) == "tufts" + " " + "university"
  {
    assert Lower("tufts") == "tufts" && Lower("university") == "university";
    assert LowerAlnum("tufts") && LowerAlnum("university");
    assert Spaces("   ") && Dropped("");
    NormalizeTwoWords("tufts", "   ", "university", "");
    assert "tufts" + "   " + "university" + "" == "tufts" + "   " + "university";
  }

  /** Strip runs before the deletion, so punctuation after a trailing space
      leaves that space in the key: "A B !" keeps a trailing space that
      "A B" has not. */
  lemma {:induction false} StripBeforeDelete(a: string, run: string, b: string, p: string)
    requires LowerAlnum(Lower(a)) && LowerAlnum(Lower(b)) && Spaces(run)
    requires |p| > 0 && Dropped(p)
    ensures NormalizeName(Some(a + run + b + " " + p)) == Lower(a) + " " + Lower(b) + " "
    ensures NormalizeName(Some(a + run + b)) == Lower(a) + " " + Lower(b)
  {
    var w1, w2 := Lower(a), Lower(b);
    assert Spaces(" ");
    LowerPieces(a, run, b + " ", p);
    LowerAppend(b, " ");
    assert Lower(" ") == " ";
    assert a + run + b + " " + p == a + run + (b + " ") + p;
    assert w1 + run + (w2 + " ") + Lower(p) == w1 + run + w2 + " " + Lower(p);
    var lowered := w1 + run + w2 + " " + Lower(p);
    SpaceFree(w1);
    DroppedLast(p);
    assert lowered[0] == w1[0];
    assert lowered[|lowered| - 1] == Lower(p)[|p| - 1];
    StripUnchanged(lowered);
    DeleteUnkeptAppend(w1 + run + w2 + " ", Lower(p));
    DeleteDropped(p);
    DeleteUnkeptAppend(w1 + run + w2, " ");
    KeptWords(w1, run, w2);
    assert DeleteUnkept(" ") == " ";
    assert w1 + run + w2 + " " + [] == w1 + run + w2 + " ";
    assert SqueezeSpaces(" ") == " ";
    SqueezeWords(w1, run, w2, " ");
    NormalizeTwoWords(a, run, b, []);
    assert a + run + b + [] == a + run + b;
  }

  lemma AcmeExample()
    ensures NormalizeName(Some("Acme" + " " + "U" + " " + "!")) == "acme" + " " + "u" + " "
    ensures NormalizeName(Some("Acme" + " " + "U")) == "acme" + " " + "u"
  {
    assert Lower("Acme") == "acme" && Lower("U") == "u";
    assert LowerAlnum("acme") && LowerAlnum("u");
    assert Spaces(" ") && Dropped("!");
    StripBeforeDelete("Acme", " ", "U", "!");
  }

  // ---------------------------------------------------------------------
  // Faculty: dropna(subset=['name']), then groupby('affiliation')

  /** `dropna(subset=['name'])`: the faculty rows that have a name, in order. */
  function DropNameless(profs: seq<Professor>): (r: seq<Professor>)
    ensures forall p :: p in r <==> p in profs && p.name.Some?
    ensures |r| <= |profs|
  {
    if profs == [] then []
    else
      assert profs == [profs[0]] + profs[1..];
      (if profs[0].name.Some? then [profs[0]] else []) + DropNameless(profs[1..])
  }

  /** The rows of one affiliation, in table order. */
  function Members(rows: seq<Professor>, a: string): (r: seq<Professor>)
    ensures forall p :: p in r <==> p in rows && p.affiliation == Some(a)
    ensures |r| <= |rows|
  {
    if rows == [] then []
    else
      assert rows == [rows[0]] + rows[1..];
      (if rows[0].affiliation == Some(a) then [rows[0]] else []) + Members(rows[1..], a)
  }

  /** The state of a group-by scan: the affiliations in order of first
      appearance, and each one's rows so far. */
  datatype Grouping = Grouping(order: seq<string>, groups: map<string, seq<Professor>>)

  /** One step of the group-by scan: the row is appended to its
      affiliation's group; a row with a null affiliation belongs to none. */
  function ScanRow(g: Grouping, p: Professor): Grouping {
    match p.affiliation
    case None => g
    case Some(a) =>
      if a in g.groups then Grouping(g.order, g.groups[a := g.groups[a] + [p]])
      else Grouping(g.order + [a], g.groups[a := [p]])
  }

  function GroupScan(rows: seq<Professor>): Grouping {
    if rows == [] then Grouping([], map[])
    else ScanRow(GroupScan(rows[..|rows| - 1]), rows[|rows| - 1])
  }

  lemma {:induction false} MembersSnoc(rows: seq<Professor>, p: Professor, a: string)
    ensures Members(rows + [p], a) == Members(rows, a) + (if p.affiliation == Some(a) then [p] else [])
  {
    var last := if p.affiliation == Some(a) then [p] else [];
    if rows == [] {
      assert rows + [p] == [p];
      assert Members([p], a) == last + Members([], a);
    } else {
      var head := if rows[0].affiliation == Some(a) then [rows[0]] else [];
      assert (rows + [p])[0] == rows[0];
      assert (rows + [p])[1..] == rows[1..] + [p];
      MembersSnoc(rows[1..], p, a);
      calc {
        Members(rows + [p], a);
        head + Members(rows[1..] + [p], a);
        head + (Members(rows[1..], a) + last);
        (head + Members(rows[1..], a)) + last;
        Members(rows, a) + last;
      }
    }
  }

  lemma {:induction false} MembersAbsent(rows: seq<Professor>, a: string)
    requires !exists p | p in rows :: p.affiliation == Some(a)
    ensures Members(rows, a) == []
  {
    if rows != [] {
      assert rows[0] in rows;
      assert forall p | p in rows[1..] :: p in rows;
      MembersAbsent(rows[1..], a);
    }
  }

  /** `g` lists each affiliation of `rows` once and holds for it exactly
      that affiliation's rows, in order. */
  ghost predicate GroupsOf(rows: seq<Professor>, g: Grouping) {
    && OrderListsKeys(g)
    && KeysAreAffiliations(rows, g)
    && (forall a | a in g.groups :: g.groups[a] == Members(rows, a) && g.groups[a] != [])
  }

  ghost predicate OrderListsKeys(g: Grouping) {
    Sorting.Distinct(g.order) && forall a :: a in g.order <==> a in g.groups
  }

  ghost predicate KeysAreAffiliations(rows: seq<Professor>, g: Grouping) {
    forall a :: a in g.groups <==> exists p | p in rows :: p.affiliation == Some(a)
  }

  lemma ScanRowOrder(g: Grouping, p: Professor)
    requires OrderListsKeys(g)
    ensures OrderListsKeys(ScanRow(g, p))
  {
    var h := ScanRow(g, p);
    if p.affiliation.Some? && p.affiliation.value !in g.groups {
      forall i, j | 0 <= i < j < |h.order| ensures h.order[i] != h.order[j] {
        if j == |g.order| {
          assert h.order[i] == g.order[i];
        }
      }
    }
  }

  lemma ScanRowKeys(init: seq<Professor>, g: Grouping, p: Professor)
    requires KeysAreAffiliations(init, g)
    ensures KeysAreAffiliations(init + [p], ScanRow(g, p))
  {
    var rows, h := init + [p], ScanRow(g, p);
    forall a ensures a in h.groups <==> exists q | q in rows :: q.affiliation == Some(a) {
      if exists q | q in rows :: q.affiliation == Some(a) {
        var q :| q in rows && q.affiliation == Some(a);
        if q != p {
          assert q in init;
        }
      }
      if a in g.groups {
        var q :| q in init && q.affiliation == Some(a);
        assert q in rows;
      }
      if a in h.groups && a !in g.groups {
        assert p in rows;
      }
    }
  }

  lemma ScanRowMembers(init: seq<Professor>, g: Grouping, p: Professor)
    requires KeysAreAffiliations(init, g)
    requires forall a | a in g.groups :: g.groups[a] == Members(init, a) && g.groups[a] != []
    ensures var h := ScanRow(g, p);
      forall a | a in h.groups :: h.groups[a] == Members(init + [p], a) && h.groups[a] != []
  {
    var h := ScanRow(g, p);
    forall a | a in h.groups ensures h.groups[a] == Members(init + [p], a) && h.groups[a] != [] {
      MembersSnoc(init, p, a);
      if a !in g.groups {
        MembersAbsent(init, a);
      }
    }
  }

  lemma ScanRowKeeps(init: seq<Professor>, g: Grouping, p: Professor)
    requires GroupsOf(init, g)
    ensures GroupsOf(init + [p], ScanRow(g, p))
  {
    ScanRowOrder(g, p);
    ScanRowKeys(init, g, p);
    ScanRowMembers(init, g, p);
  }

  /** The scan groups exactly as `GroupsOf` describes. */
  lemma {:induction false} GroupScanSpec(rows: seq<Professor>)
    ensures GroupsOf(rows, GroupScan(rows))
  {
    if rows != [] {
      var init, p := rows[..|rows| - 1], rows[|rows| - 1];
      assert rows == init + [p];
      GroupScanSpec(init);
      ScanRowKeeps(init, GroupScan(init), p);
    }
  }

  /** `groupby('affiliation')` with each group's rows as records: one group
      per affiliation, in ascending affiliation order. */
  function GroupByAffiliation(rows: seq<Professor>): (r: seq<ProfessorGroup>)
    ensures forall i | 0 <= i < |r| ::
      && r[i].members != []
      && forall p | p in r[i].members :: p in rows && p.affiliation == Some(r[i].affiliation)
  {
    var g := GroupScan(rows);
    var keys := Sorting.SortBy(g.order, Sorting.Id);
    ScannedKeysHoldRows(rows, g, keys);
    seq(|keys|, i requires 0 <= i < |keys| =>
      ProfessorGroup(keys[i], if keys[i] in g.groups then g.groups[keys[i]] else []))
  }

  /** The groups' affiliations are the sorted affiliations of the scan. */
  lemma GroupKeysSorted(rows: seq<Professor>)
    ensures var g := GroupScan(rows);
      var keys := Sorting.SortBy(g.order, Sorting.Id);
      && Sorting.Distinct(keys)
      && (forall i | 0 <= i < |keys| :: keys[i] in g.groups)
      && (forall a | a in g.groups :: a in keys)
  {
    var g := GroupScan(rows);
    GroupScanSpec(rows);
    var keys := Sorting.SortBy(g.order, Sorting.Id);
    Sorting.SortPreservesDistinct(g.order, Sorting.Id);
    forall i | 0 <= i < |keys| ensures keys[i] in g.groups {
      assert keys[i] in multiset(g.order);
    }
    forall a | a in g.groups ensures a in keys {
      assert a in multiset(keys);
    }
  }

  /** Each sorted key has a non-empty group of rows with that affiliation. */
  lemma ScannedKeysHoldRows(rows: seq<Professor>, g: Grouping, keys: seq<string>)
    requires g == GroupScan(rows) && keys == Sorting.SortBy(g.order, Sorting.Id)
    ensures forall i | 0 <= i < |keys| ::
        && keys[i] in g.groups && g.groups[keys[i]] != []
        && forall p | p in g.groups[keys[i]] :: p in rows && p.affiliation == Some(keys[i])
  {
    GroupKeysSorted(rows);
    GroupScanSpec(rows);
  }

  /** Groups come in strictly ascending affiliation order. */
  lemma GroupsAscending(rows: seq<Professor>)
    ensures var gs := GroupByAffiliation(rows);
      forall i, j | 0 <= i < j < |gs| ::
        Sorting.LexLe(gs[i].affiliation, gs[j].affiliation) && gs[i].affiliation != gs[j].affiliation
  {
    GroupKeysSorted(rows);
  }

  /** Each group holds exactly its affiliation's rows, in table order, and is
      never empty. */
  lemma GroupsHoldMembers(rows: seq<Professor>)
    ensures var gs := GroupByAffiliation(rows);
      forall i | 0 <= i < |gs| :: gs[i].members == Members(rows, gs[i].affiliation) && gs[i].members != []
  {
    GroupKeysSorted(rows);
    GroupScanSpec(rows);
  }

  /** Every row with an affiliation lands in a group. */
  lemma GroupsCoverRows(rows: seq<Professor>)
    ensures var gs := GroupByAffiliation(rows);
      forall p | p in rows && p.affiliation.Some? ::
        exists i | 0 <= i < |gs| :: gs[i].affiliation == p.affiliation.value
  {
    var g := GroupScan(rows);
    GroupKeysSorted(rows);
    GroupScanSpec(rows);
    var keys := Sorting.SortBy(g.order, Sorting.Id);
    var gs := GroupByAffiliation(rows);
    forall p | p in rows && p.affiliation.Some?
      ensures exists i | 0 <= i < |gs| :: gs[i].affiliation == p.affiliation.value
    {
      var a := p.affiliation.value;
      assert a in g.groups;
      assert a in keys;
      var i :| 0 <= i < |keys| && keys[i] == a;
      assert gs[i].affiliation == keys[i];
    }
  }

  /** The faculty frame after `dropna` and the group-by. */
  function FacultyGroups(profs: seq<Professor>): seq<ProfessorGroup> {
    GroupByAffiliation(DropNameless(profs))
  }

  // ---------------------------------------------------------------------
  // pd.merge(left, right, on='normalized_name', how='left')

  /** One row of a left join: the anchor row and its match, or no match. */
  datatype Joined<L, R> = Joined(left: L, right: Option<R>)

  /** The right rows whose key is `k`, in right-table order. */
  function Matching<R(==)>(right: seq<R>, rkey: R -> string, k: string): (r: seq<R>)
    ensures forall i | 0 <= i < |r| :: r[i] in right && rkey(r[i]) == k
    ensures forall i | 0 <= i < |right| && rkey(right[i]) == k :: right[i] in r
    ensures |r| <= |right|
  {
    if right == [] then []
    else
      assert right == [right[0]] + right[1..];
      (if rkey(right[0]) == k then [right[0]] else []) + Matching(right[1..], rkey, k)
  }

  /** The output rows of one anchor: one per match, or one unmatched row. */
  function RowsFor<L, R>(l: L, ms: seq<R>): seq<Joined<L, R>> {
    if ms == [] then [Joined(l, None)]
    else seq(|ms|, i requires 0 <= i < |ms| => Joined(l, Some(ms[i])))
  }

  /** A left join: anchors in order, each followed by its matches in
      right-table order. */
  function LeftJoin<L, R(==)>(left: seq<L>, right: seq<R>, lkey: L -> string, rkey: R -> string): (r: seq<Joined<L, R>>)
    ensures |r| >= |left|
  {
    if left == [] then []
    else RowsFor(left[0], Matching(right, rkey, lkey(left[0]))) + LeftJoin(left[1..], right, lkey, rkey)
  }

  /** A join row pairs an anchor with a right row of the same key, or with
      nothing when no right row has the anchor's key. */
  ghost predicate JoinRowOk<L, R>(row: Joined<L, R>, left: seq<L>, right: seq<R>, lkey: L -> string, rkey: R -> string) {
    && row.left in left
    && (row.right.Some? ==> row.right.value in right && rkey(row.right.value) == lkey(row.left))
    && (row.right.None? ==> forall r | r in right :: rkey(r) != lkey(row.left))
  }

  ghost predicate JoinRowsOk<L, R>(out: seq<Joined<L, R>>, left: seq<L>, right: seq<R>, lkey: L -> string, rkey: R -> string) {
    forall j | 0 <= j < |out| :: JoinRowOk(out[j], left, right, lkey, rkey)
  }

  lemma {:induction false} LeftJoinRowsOk<L, R>(left: seq<L>, right: seq<R>, lkey: L -> string, rkey: R -> string)
    ensures JoinRowsOk(LeftJoin(left, right, lkey, rkey), left, right, lkey, rkey)
  {
    if left != [] {
      var ms := Matching(right, rkey, lkey(left[0]));
      var head := RowsFor(left[0], ms);
      var tail := LeftJoin(left[1..], right, lkey, rkey);
      LeftJoinRowsOk(left[1..], right, lkey, rkey);
      var out := head + tail;
      assert LeftJoin(left, right, lkey, rkey) == out;
      forall j | 0 <= j < |out| ensures JoinRowOk(out[j], left, right, lkey, rkey) {
        if j >= |head| {
          assert out[j] == tail[j - |head|];
          assert JoinRowOk(tail[j - |head|], left[1..], right, lkey, rkey);
          assert out[j].left in left[1..];
        } else if ms != [] {
          assert out[j] == Joined(left[0], Some(ms[j]));
        }
      }
    }
  }

  /** Every anchor row is kept: it heads at least one output row. */
  lemma {:induction false} LeftJoinKeepsAnchors<L, R>(left: seq<L>, right: seq<R>, lkey: L -> string, rkey: R -> string)
    ensures var out := LeftJoin(left, right, lkey, rkey);
      && |out| >= |left|
      && forall i | 0 <= i < |left| :: exists j | 0 <= j < |out| :: out[j].left == left[i]
  {
    if left != [] {
      var head := RowsFor(left[0], Matching(right, rkey, lkey(left[0])));
      var tail := LeftJoin(left[1..], right, lkey, rkey);
      LeftJoinKeepsAnchors(left[1..], right, lkey, rkey);
      var out := head + tail;
      assert LeftJoin(left, right, lkey, rkey) == out;
      assert out[0] == head[0];
      forall i | 0 < i < |left| ensures exists j | 0 <= j < |out| :: out[j].left == left[i] {
        assert left[i] == left[1..][i - 1];
        AnchorKept(head, tail, left[i]);
      }
    }
  }

  lemma AnchorKept<L, R>(head: seq<Joined<L, R>>, tail: seq<Joined<L, R>>, x: L)
    requires exists j | 0 <= j < |tail| :: tail[j].left == x
    ensures exists j | 0 <= j < |head + tail| :: (head + tail)[j].left == x
  {
    var j :| 0 <= j < |tail| && tail[j].left == x;
    assert (head + tail)[|head| + j] == tail[j];
  }

  /** The keys of a table are pairwise different. */
  ghost predicate UniqueKeys<R>(right: seq<R>, rkey: R -> string) {
    forall i, j | 0 <= i < j < |right| :: rkey(right[i]) != rkey(right[j])
  }

  lemma {:induction false} UniqueKeysMatchAtMostOne<R>(right: seq<R>, rkey: R -> string, k: string)
    requires UniqueKeys(right, rkey)
    ensures |Matching(right, rkey, k)| <= 1
  {
    if right != [] {
      UniqueKeysMatchAtMostOne(right[1..], rkey, k);
      if rkey(right[0]) == k {
        forall i | 0 <= i < |right| - 1 ensures rkey(right[1..][i]) != k {
          assert right[1..][i] == right[i + 1];
        }
        NoMatching(right[1..], rkey, k);
      }
    }
  }

  lemma {:induction false} NoMatching<R>(right: seq<R>, rkey: R -> string, k: string)
    requires forall i | 0 <= i < |right| :: rkey(right[i]) != k
    ensures Matching(right, rkey, k) == []
  {
    if right != [] {
      NoMatching(right[1..], rkey, k);
    }
  }

  /** With unique right keys, a left join has exactly one row per anchor, in
      anchor order. */
  lemma RowsForShape<L, R>(l: L, ms: seq<R>)
    ensures |RowsFor(l, ms)| == if ms == [] then 1 else |ms|
    ensures forall i | 0 <= i < |RowsFor(l, ms)| :: RowsFor(l, ms)[i].left == l
  {
  }

  lemma {:induction false} LeftJoinOnePerAnchor<L, R>(left: seq<L>, right: seq<R>, lkey: L -> string, rkey: R -> string)
    requires UniqueKeys(right, rkey)
    ensures var out := LeftJoin(left, right, lkey, rkey);
      && |out| == |left|
      && forall i | 0 <= i < |left| :: out[i].left == left[i]
  {
    if left != [] {
      var head := RowsFor(left[0], Matching(right, rkey, lkey(left[0])));
      OneRowPerAnchor(left[0], right, rkey, lkey(left[0]));
      var tail := LeftJoin(left[1..], right, lkey, rkey);
      LeftJoinOnePerAnchor(left[1..], right, lkey, rkey);
      var out := head + tail;
      assert LeftJoin(left, right, lkey, rkey) == out;
      forall i | 0 <= i < |left| ensures out[i].left == left[i] {
        if i > 0 {
          assert out[i] == tail[i - 1];
        }
      }
    }
  }

  lemma OneRowPerAnchor<L, R>(l: L, right: seq<R>, rkey: R -> string, k: string)
    requires UniqueKeys(right, rkey)
    ensures var head := RowsFor(l, Matching(right, rkey, k));
      |head| == 1 && head[0].left == l
  {
    UniqueKeysMatchAtMostOne(right, rkey, k);
    RowsForShape(l, Matching(right, rkey, k));
  }

  // ---------------------------------------------------------------------
  // The two merges, the projection onto seven columns and the null fill

  function UniversityKey(u: UniversityRow): string { NormalizeName(u.name) }
  function DeadlineKey(d: StoredDeadline): string { NormalizeName(d.university) }
  function GroupKey(g: ProfessorGroup): string { NormalizeName(Some(g.affiliation)) }
  function MergedKey(j: Joined<UniversityRow, StoredDeadline>): string { UniversityKey(j.left) }

  type MergedRow = Joined<Joined<UniversityRow, StoredDeadline>, ProfessorGroup>

  /** Renames and selects the seven columns; an unmatched side leaves nulls. */
  function Project(row: MergedRow): FinalRecord {
    var u, d, g := row.left.left, row.left.right, row.right;
    FinalRecord(u.name, u.website, u.data, u.rankings,
                if d.Some? then d.value.info else None,
                if d.Some? then d.value.url else None,
                if g.Some? then Some(g.value.members) else None)
  }

  /** `fillna` on the three filled columns; the others keep their nulls. */
  function FillNulls(r: FinalRecord): FinalRecord {
    r.(deadlineInfo := Some(r.deadlineInfo.GetOr(NotFound)),
       deadlineUrl := Some(r.deadlineUrl.GetOr(NoUrl)),
       professors := Some(r.professors.GetOr([])))
  }

  function MergedRows(unis: seq<UniversityRow>, deadlines: seq<StoredDeadline>, profs: seq<Professor>): seq<MergedRow> {
    LeftJoin(LeftJoin(unis, deadlines, UniversityKey, DeadlineKey), FacultyGroups(profs), MergedKey, GroupKey)
  }

  /** The final table the merger writes. */
  function MergedRecords(unis: seq<UniversityRow>, deadlines: seq<StoredDeadline>, profs: seq<Professor>): seq<FinalRecord> {
    var rows := MergedRows(unis, deadlines, profs);
    seq(|rows|, i requires 0 <= i < |rows| => FillNulls(Project(rows[i])))
  }

  /** The merger's `main`: `None` when an input file is missing (nothing is
      written), otherwise the final table. */
  method MergeData(usnews: Option<seq<UniversityRow>>, deadlines: Option<seq<StoredDeadline>>,
                   professors: Option<seq<Professor>>) returns (output: Option<seq<FinalRecord>>)
    ensures output.None? <==> usnews.None? || deadlines.None? || professors.None?
    ensures output.Some? ==> output.value == MergedRecords(usnews.value, deadlines.value, professors.value)
  {
    if usnews.None? || deadlines.None? || professors.None? {
      return None;
    }
    var named := DropNameless(professors.value);
    var grouped := GroupByAffiliation(named);
    var merged := LeftJoin(usnews.value, deadlines.value, UniversityKey, DeadlineKey);
    var finalRows := LeftJoin(merged, grouped, MergedKey, GroupKey);
    var table := seq(|finalRows|, i requires 0 <= i < |finalRows| => Project(finalRows[i]));
    table := seq(|table|, i requires 0 <= i < |table| => FillNulls(table[i]));
    return Some(table);
  }

  /** The university columns of a record are those of the given row. */
  predicate FromUniversity(r: FinalRecord, u: UniversityRow) {
    r.universityName == u.name && r.universityWebsite == u.website
    && r.universityData == u.data && r.rankingsData == u.rankings
  }

  /** Every row of the university file survives the merges. */
  lemma MergeKeepsEveryUniversity(unis: seq<UniversityRow>, deadlines: seq<StoredDeadline>, profs: seq<Professor>)
    ensures var out := MergedRecords(unis, deadlines, profs);
      && |out| >= |unis|
      && forall i | 0 <= i < |unis| :: exists j | 0 <= j < |out| :: FromUniversity(out[j], unis[i])
  {
    var out := MergedRecords(unis, deadlines, profs);
    forall i | 0 <= i < |unis| ensures exists j | 0 <= j < |out| :: FromUniversity(out[j], unis[i]) {
      UniversitySurvives(unis, deadlines, profs, i);
    }
  }

  lemma UniversitySurvives(unis: seq<UniversityRow>, deadlines: seq<StoredDeadline>, profs: seq<Professor>, i: nat)
    requires i < |unis|
    ensures var out := MergedRecords(unis, deadlines, profs);
      exists j | 0 <= j < |out| :: FromUniversity(out[j], unis[i])
  {
    var first := LeftJoin(unis, deadlines, UniversityKey, DeadlineKey);
    var rows := MergedRows(unis, deadlines, profs);
    var out := MergedRecords(unis, deadlines, profs);
    LeftJoinKeepsAnchors(unis, deadlines, UniversityKey, DeadlineKey);
    LeftJoinKeepsAnchors(first, FacultyGroups(profs), MergedKey, GroupKey);
    var k :| 0 <= k < |first| && first[k].left == unis[i];
    var j :| 0 <= j < |rows| && rows[j].left == first[k];
    assert FromUniversity(out[j], unis[i]);
  }

  /** The deadline columns: a matched deadline row's cells, nulls filled, or
      "Not Found" and "N/A" when no deadline row has the university's key. */
  lemma MergedDeadlineColumns(unis: seq<UniversityRow>, deadlines: seq<StoredDeadline>, profs: seq<Professor>)
    ensures var out := MergedRecords(unis, deadlines, profs);
      forall j | 0 <= j < |out| ::
        || (exists d | d in deadlines ::
              && DeadlineKey(d) == NormalizeName(out[j].universityName)
              && out[j].deadlineInfo == Some(d.info.GetOr(NotFound))
              && out[j].deadlineUrl == Some(d.url.GetOr(NoUrl)))
        || (&& (forall d | d in deadlines :: DeadlineKey(d) != NormalizeName(out[j].universityName))
            && out[j].deadlineInfo == Some(NotFound)
            && out[j].deadlineUrl == Some(NoUrl))
  {
    var first := LeftJoin(unis, deadlines, UniversityKey, DeadlineKey);
    var rows := MergedRows(unis, deadlines, profs);
    var out := MergedRecords(unis, deadlines, profs);
    LeftJoinRowsOk(unis, deadlines, UniversityKey, DeadlineKey);
    LeftJoinRowsOk(first, FacultyGroups(profs), MergedKey, GroupKey);
    forall j | 0 <= j < |out|
      ensures || (exists d | d in deadlines ::
                    && DeadlineKey(d) == NormalizeName(out[j].universityName)
                    && out[j].deadlineInfo == Some(d.info.GetOr(NotFound))
                    && out[j].deadlineUrl == Some(d.url.GetOr(NoUrl)))
              || (&& (forall d | d in deadlines :: DeadlineKey(d) != NormalizeName(out[j].universityName))
                  && out[j].deadlineInfo == Some(NotFound)
                  && out[j].deadlineUrl == Some(NoUrl))
    {
      assert JoinRowOk(rows[j], first, FacultyGroups(profs), MergedKey, GroupKey);
      var f := rows[j].left;
      var k :| 0 <= k < |first| && first[k] == f;
      assert JoinRowOk(first[k], unis, deadlines, UniversityKey, DeadlineKey);
      if f.right.Some? {
        var d := f.right.value;
        assert d in deadlines && DeadlineKey(d) == NormalizeName(out[j].universityName);
      }
    }
  }

  /** The professors column: the faculty group whose affiliation has the
      university's key, or the empty list when there is none. */
  lemma MergedProfessorColumn(unis: seq<UniversityRow>, deadlines: seq<StoredDeadline>, profs: seq<Professor>)
    ensures var out := MergedRecords(unis, deadlines, profs);
      var groups := FacultyGroups(profs);
      forall j | 0 <= j < |out| ::
        || (exists g | g in groups ::
              GroupKey(g) == NormalizeName(out[j].universityName) && out[j].professors == Some(g.members))
        || (&& (forall g | g in groups :: GroupKey(g) != NormalizeName(out[j].universityName))
            && out[j].professors == Some([]))
  {
    var first := LeftJoin(unis, deadlines, UniversityKey, DeadlineKey);
    var rows := MergedRows(unis, deadlines, profs);
    var out := MergedRecords(unis, deadlines, profs);
    var groups := FacultyGroups(profs);
    LeftJoinRowsOk(first, groups, MergedKey, GroupKey);
    forall j | 0 <= j < |out|
      ensures || (exists g | g in groups ::
                    GroupKey(g) == NormalizeName(out[j].universityName) && out[j].professors == Some(g.members))
              || (&& (forall g | g in groups :: GroupKey(g) != NormalizeName(out[j].universityName))
                  && out[j].professors == Some([]))
    {
      assert JoinRowOk(rows[j], first, groups, MergedKey, GroupKey);
      if rows[j].right.Some? {
        var g := rows[j].right.value;
        assert g in groups && GroupKey(g) == NormalizeName(out[j].universityName);
      }
    }
  }

  /** Every professor listed for a university has a name, comes from the
      faculty table, and has an affiliation with the university's key. */
  lemma ProfessorsBelongToUniversity(unis: seq<UniversityRow>, deadlines: seq<StoredDeadline>, profs: seq<Professor>)
    ensures var out := MergedRecords(unis, deadlines, profs);
      forall j, p | 0 <= j < |out| && out[j].professors.Some? && p in out[j].professors.value ::
        && p in profs && p.name.Some? && p.affiliation.Some?
        && NormalizeName(p.affiliation) == NormalizeName(out[j].universityName)
  {
    var out := MergedRecords(unis, deadlines, profs);
    forall j, p | 0 <= j < |out| && out[j].professors.Some? && p in out[j].professors.value
      ensures && p in profs && p.name.Some? && p.affiliation.Some?
              && NormalizeName(p.affiliation) == NormalizeName(out[j].universityName)
    {
      ProfessorOfRecord(unis, deadlines, profs, out, j, p);
    }
  }

  lemma ProfessorOfRecord(unis: seq<UniversityRow>, deadlines: seq<StoredDeadline>, profs: seq<Professor>,
                          out: seq<FinalRecord>, j: nat, p: Professor)
    requires out == MergedRecords(unis, deadlines, profs)
    requires j < |out| && out[j].professors.Some? && p in out[j].professors.value
    ensures && p in profs && p.name.Some? && p.affiliation.Some?
            && NormalizeName(p.affiliation) == NormalizeName(out[j].universityName)
  {
    var groups := FacultyGroups(profs);
    MergedProfessorColumn(unis, deadlines, profs);
    var g :| g in groups && GroupKey(g) == NormalizeName(out[j].universityName) && out[j].professors == Some(g.members);
    GroupMember(profs, g, p);
  }

  lemma GroupMember(profs: seq<Professor>, g: ProfessorGroup, p: Professor)
    requires g in FacultyGroups(profs) && p in g.members
    ensures p in profs && p.name.Some? && p.affiliation == Some(g.affiliation)
  {
    GroupMembersNamed(profs);
  }

  /** A faculty group's members are named rows of the faculty table with
      the group's affiliation. */
  lemma GroupMembersNamed(profs: seq<Professor>)
    ensures forall g, p | g in FacultyGroups(profs) && p in g.members ::
      p in profs && p.name.Some? && p.affiliation == Some(g.affiliation)
  {
    var named := DropNameless(profs);
    var groups := FacultyGroups(profs);
    GroupsHoldMembers(named);
    forall g, p | g in groups && p in g.members
      ensures p in profs && p.name.Some? && p.affiliation == Some(g.affiliation)
    {
      var i :| 0 <= i < |groups| && groups[i] == g;
      assert p in Members(named, g.affiliation);
    }
  }

  /** Faculty affiliations that normalise alike are spelled alike. */
  ghost predicate AffiliationKeysUnique(profs: seq<Professor>) {
    forall p, q | p in profs && q in profs && p.name.Some? && q.name.Some? && p.affiliation.Some? && q.affiliation.Some? ::
      NormalizeName(p.affiliation) == NormalizeName(q.affiliation) ==> p.affiliation == q.affiliation
  }

  lemma GroupKeysUnique(profs: seq<Professor>)
    requires AffiliationKeysUnique(profs)
    ensures UniqueKeys(FacultyGroups(profs), GroupKey)
  {
    var named := DropNameless(profs);
    var groups := FacultyGroups(profs);
    GroupsAscending(named);
    GroupsHoldMembers(named);
    forall i, j | 0 <= i < j < |groups| ensures GroupKey(groups[i]) != GroupKey(groups[j]) {
      var p, q := groups[i].members[0], groups[j].members[0];
      assert p in Members(named, groups[i].affiliation);
      assert q in Members(named, groups[j].affiliation);
    }
  }

  /** With unique deadline keys and affiliations that do not collide after
      normalisation, the final table has exactly one row per university row,
      in file order. */
  lemma MergeOneRowPerUniversity(unis: seq<UniversityRow>, deadlines: seq<StoredDeadline>, profs: seq<Professor>)
    requires UniqueKeys(deadlines, DeadlineKey)
    requires AffiliationKeysUnique(profs)
    ensures var out := MergedRecords(unis, deadlines, profs);
      && |out| == |unis|
      && forall i | 0 <= i < |unis| :: FromUniversity(out[i], unis[i])
  {
    var first := LeftJoin(unis, deadlines, UniversityKey, DeadlineKey);
    LeftJoinOnePerAnchor(unis, deadlines, UniversityKey, DeadlineKey);
    GroupKeysUnique(profs);
    LeftJoinOnePerAnchor(first, FacultyGroups(profs), MergedKey, GroupKey);
  }
}
