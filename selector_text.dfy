/** The string handling of the selector engine: `trim`, the comma split of
    the constructor, the whitespace split of `_selectBlock`, and the three
    regular expressions `_selectWord` pulls a tag, a class key and an id
    out of a fragment with. */
module SelectorText {
  import opened Js

  /** `\s` and the characters `trim` removes (sections 7.2 and 7.3 of
      ECMA-262 5.1): WhiteSpace, including the Zs space separators, and
      LineTerminator. */
  const Spaces: set<char> := {
    '\t', '\U{000B}', '\U{000C}', ' ', '\U{00A0}', '\U{FEFF}', '\n', '\r', '\U{2028}', '\U{2029}',
    '\U{1680}', '\U{180E}', '\U{2000}', '\U{2001}', '\U{2002}', '\U{2003}', '\U{2004}', '\U{2005}',
    '\U{2006}', '\U{2007}', '\U{2008}', '\U{2009}', '\U{200A}', '\U{202F}', '\U{205F}', '\U{3000}' }

  predicate IsSpace(c: char) {
    c in Spaces
  }

  /** `\w` (and `[\w_]`): an ASCII letter, digit or underscore. */
  predicate IsWordChar(c: char) {
    ('a' <= c <= 'z') || ('A' <= c <= 'Z') || ('0' <= c <= '9') || c == '_'
  }

  /** `/\s+/.test(s)`. */
  predicate HasSpace(s: string) {
    exists i :: 0 <= i < |s| && IsSpace(s[i])
  }

  /** No whitespace at either end. */
  predicate IsTrimmed(s: string) {
    s == [] || (!IsSpace(s[0]) && !IsSpace(s[|s| - 1]))
  }

  /** A non-empty run of word characters. */
  predicate IsWord(w: string) {
    w != [] && forall i :: 0 <= i < |w| ==> IsWordChar(w[i])
  }

  // ---------------------------------------------------------------------
  // trim

  /** `s` without its leading whitespace. */
  function TrimLeft(s: string): (r: string)
    ensures |r| <= |s|
    ensures s != [] && IsSpace(s[0]) ==> |r| < |s|
    ensures r == [] || !IsSpace(r[0])
  {
    if s != [] && IsSpace(s[0]) then TrimLeft(s[1..]) else s
  }

  /** What TrimLeft keeps is a suffix, and all it drops is whitespace. */
  lemma {:induction false} TrimLeftSuffix(s: string)
    ensures TrimLeft(s) == s[|s| - |TrimLeft(s)|..]
    ensures forall i :: 0 <= i < |s| - |TrimLeft(s)| ==> IsSpace(s[i])
  {
    if s != [] && IsSpace(s[0]) {
      var t := s[1..];
      TrimLeftSuffix(t);
      assert t[|t| - |TrimLeft(t)|..] == s[|s| - |TrimLeft(s)|..];
      forall i | 0 < i < |s| - |TrimLeft(s)| ensures IsSpace(s[i]) {
        assert s[i] == t[i - 1];
      }
    }
  }

  /** `s` without its trailing whitespace. */
  function TrimRight(s: string): (r: string)
    ensures |r| <= |s|
    ensures r == [] || !IsSpace(r[|r| - 1])
  {
    if s != [] && IsSpace(s[|s| - 1]) then TrimRight(s[..|s| - 1]) else s
  }

  /** What TrimRight keeps is a prefix, and all it drops is whitespace. */
  lemma {:induction false} TrimRightPrefix(s: string)
    ensures TrimRight(s) == s[..|TrimRight(s)|]
    ensures forall i :: |TrimRight(s)| <= i < |s| ==> IsSpace(s[i])
  {
    if s != [] && IsSpace(s[|s| - 1]) {
      var t := s[..|s| - 1];
      TrimRightPrefix(t);
      assert t[..|TrimRight(t)|] == s[..|TrimRight(s)|];
      forall i | |TrimRight(s)| <= i < |s| - 1 ensures IsSpace(s[i]) {
        assert s[i] == t[i];
      }
    }
  }

  /** The number of whitespace characters `s` starts with. */
  function TrimOffset(s: string): nat {
    |s| - |TrimLeft(s)|
  }

  /** `String.prototype.trim`: `s` without the whitespace at either end. */
  function Trim(s: string): (r: string)
    ensures IsTrimmed(r)
    ensures |r| <= |s|
  {
    var l := TrimLeft(s);
    TrimRightPrefix(l);
    TrimRight(l)
  }

  /** Trim keeps the slice of `s` between its leading and its trailing
      whitespace, and drops only whitespace. */
  lemma TrimSlice(s: string)
    ensures TrimOffset(s) + |Trim(s)| <= |s|
    ensures Trim(s) == s[TrimOffset(s)..TrimOffset(s) + |Trim(s)|]
    ensures forall k :: 0 <= k < TrimOffset(s) ==> IsSpace(s[k])
    ensures forall k :: TrimOffset(s) + |Trim(s)| <= k < |s| ==> IsSpace(s[k])
  {
    var l := TrimLeft(s);
    var r := TrimRight(l);
    TrimLeftSuffix(s);
    TrimRightPrefix(l);
    assert r == s[|s| - |l|..][..|r|];
    forall k | |s| - |l| + |r| <= k < |s| ensures IsSpace(s[k]) {
      assert s[k] == l[k - (|s| - |l|)];
    }
  }

  /** Trimming what is already trimmed changes nothing; in particular trim
      is idempotent. */
  lemma TrimTrimmed(s: string)
    requires IsTrimmed(s)
    ensures Trim(s) == s
  {
    assert TrimLeft(s) == s;
  }

  lemma TrimIdempotent(s: string)
    ensures Trim(Trim(s)) == Trim(s)
  {
    TrimTrimmed(Trim(s));
  }

  // ---------------------------------------------------------------------
  // split on a single character

  /** `s.split(sep)` for a one-character separator: the pieces between the
      separators, an empty piece on each side of a separator at an end. */
  function SplitAt(s: string, sep: char): (r: seq<string>)
    ensures |r| >= 1
  {
    if s == [] then [""]
    else
      var rest := SplitAt(s[1..], sep);
      if s[0] == sep then [""] + rest else [[s[0]] + rest[0]] + rest[1..]
  }

  /** `ps.join(sep)`. */
  function Join(ps: seq<string>, sep: char): string
    requires |ps| >= 1
  {
    if |ps| == 1 then ps[0] else ps[0] + [sep] + Join(ps[1..], sep)
  }

  lemma JoinConsHead(c: char, ps: seq<string>, sep: char)
    requires |ps| >= 1
    ensures Join([[c] + ps[0]] + ps[1..], sep) == [c] + Join(ps, sep)
  {
    var qs := [[c] + ps[0]] + ps[1..];
    if |ps| > 1 {
      assert qs[1..] == ps[1..];
    }
  }

  /** Joining the pieces gives the string back, and no piece holds the
      separator. */
  lemma {:induction false} SplitJoin(s: string, sep: char)
    ensures Join(SplitAt(s, sep), sep) == s
    ensures forall k :: 0 <= k < |SplitAt(s, sep)| ==> sep !in SplitAt(s, sep)[k]
  {
    if s != [] {
      var rest := SplitAt(s[1..], sep);
      SplitJoin(s[1..], sep);
      if s[0] == sep {
        assert ([""] + rest)[1..] == rest;
        assert s == [sep] + s[1..];
      } else {
        JoinConsHead(s[0], rest, sep);
        assert s == [s[0]] + s[1..];
        var r := SplitAt(s, sep);
        forall k | 0 <= k < |r| ensures sep !in r[k] {
          if k > 0 {
            assert r[k] == rest[k];
          }
        }
      }
    }
  }

  /** A prefix without the separator glues onto the first piece. */
  lemma {:induction false} SplitPrefix(p: string, t: string, sep: char)
    requires sep !in p
    ensures SplitAt(p + t, sep) == [p + SplitAt(t, sep)[0]] + SplitAt(t, sep)[1..]
  {
    if p == [] {
      assert p + t == t;
      assert p + SplitAt(t, sep)[0] == SplitAt(t, sep)[0];
      assert SplitAt(t, sep) == [SplitAt(t, sep)[0]] + SplitAt(t, sep)[1..];
    } else {
      assert (p + t)[1..] == p[1..] + t;
      assert (p + t)[0] == p[0];
      SplitPrefix(p[1..], t, sep);
      assert [p[0]] + (p[1..] + SplitAt(t, sep)[0]) == p + SplitAt(t, sep)[0];
    }
  }

  /** Splitting what was joined from separator-free pieces gives the
      pieces back. */
  lemma {:induction false} JoinSplit(ps: seq<string>, sep: char)
    requires |ps| >= 1 && forall k :: 0 <= k < |ps| ==> sep !in ps[k]
    ensures SplitAt(Join(ps, sep), sep) == ps
  {
    if |ps| == 1 {
      SplitPrefix(ps[0], "", sep);
      assert ps[0] + "" == ps[0];
    } else {
      var u := Join(ps[1..], sep);
      JoinSplit(ps[1..], sep);
      assert ([sep] + u)[0] == sep && ([sep] + u)[1..] == u;
      assert SplitAt([sep] + u, sep) == [""] + ps[1..];
      SplitPrefix(ps[0], [sep] + u, sep);
      assert ps[0] + [sep] + u == ps[0] + ([sep] + u);
      assert ps[0] + "" == ps[0];
      assert [ps[0]] + ps[1..] == ps;
    }
  }

  // ---------------------------------------------------------------------
  // the constructor's comma split

  /** Every piece trimmed. */
  function TrimAll(ps: seq<string>): (r: seq<string>)
    ensures |r| == |ps|
    ensures forall k :: 0 <= k < |r| ==> r[k] == Trim(ps[k])
  {
    if ps == [] then [] else [Trim(ps[0])] + TrimAll(ps[1..])
  }

  /** `arg.trim().split(/\s*,\s*\/)`: the trimmed string cut at every comma,
      each piece losing the whitespace around the comma. For a trimmed
      string this is the comma split with each piece trimmed. */
  function SplitSelector(s: string): (r: seq<string>)
    ensures |r| >= 1
    ensures forall k :: 0 <= k < |r| ==> IsTrimmed(r[k])
  {
    TrimAll(SplitAt(Trim(s), ','))
  }

  /** A character of the trimmed string is a character of the string. */
  lemma TrimKeeps(s: string, c: char)
    requires c !in s
    ensures c !in Trim(s)
  {
    TrimSlice(s);
    var t := Trim(s);
    forall j | 0 <= j < |t| ensures t[j] != c {
      assert t[j] == s[TrimOffset(s) + j];
    }
  }

  /** No clause holds a comma. */
  lemma SplitSelectorClauses(s: string)
    ensures forall k :: 0 <= k < |SplitSelector(s)| ==> ',' !in SplitSelector(s)[k]
  {
    var pieces := SplitAt(Trim(s), ',');
    SplitJoin(Trim(s), ',');
    forall k | 0 <= k < |pieces| ensures ',' !in Trim(pieces[k]) {
      TrimKeeps(pieces[k], ',');
    }
  }

  lemma TrimmedAroundComma(a: string, b: string)
    requires IsTrimmed(a) && IsTrimmed(b)
    ensures IsTrimmed(a + [','] + b)
  {
    var s := a + [','] + b;
    if a != [] {
      assert s[0] == a[0];
    } else {
      assert s[0] == ',';
    }
    if b != [] {
      assert s[|s| - 1] == b[|b| - 1];
    } else {
      assert s[|s| - 1] == ',';
    }
  }

  lemma {:induction false} JoinTrimmed(cs: seq<string>)
    requires |cs| >= 1 && forall k :: 0 <= k < |cs| ==> IsTrimmed(cs[k])
    ensures IsTrimmed(Join(cs, ','))
  {
    if |cs| > 1 {
      JoinTrimmed(cs[1..]);
      TrimmedAroundComma(cs[0], Join(cs[1..], ','));
    }
  }

  lemma {:induction false} TrimAllTrimmed(cs: seq<string>)
    requires forall k :: 0 <= k < |cs| ==> IsTrimmed(cs[k])
    ensures TrimAll(cs) == cs
  {
    if cs != [] {
      TrimTrimmed(cs[0]);
      TrimAllTrimmed(cs[1..]);
    }
  }

  /** The comma split inverts a comma join of trimmed, comma-free clauses. */
  lemma SplitSelectorJoin(cs: seq<string>)
    requires |cs| >= 1
    requires forall k :: 0 <= k < |cs| ==> IsTrimmed(cs[k]) && ',' !in cs[k]
    ensures SplitSelector(Join(cs, ',')) == cs
  {
    JoinTrimmed(cs);
    TrimTrimmed(Join(cs, ','));
    JoinSplit(cs, ',');
    TrimAllTrimmed(cs);
  }

  // ---------------------------------------------------------------------
  // _selectBlock's whitespace split

  /** The leading run of non-whitespace characters. */
  function NonSpaceRun(s: string): (r: string)
    ensures |r| <= |s|
    ensures |r| < |s| ==> IsSpace(s[|r|])
  {
    if s != [] && !IsSpace(s[0]) then [s[0]] + NonSpaceRun(s[1..]) else []
  }

  lemma {:induction false} NonSpaceRunPrefix(s: string)
    ensures NonSpaceRun(s) == s[..|NonSpaceRun(s)|]
    ensures forall i :: 0 <= i < |NonSpaceRun(s)| ==> !IsSpace(s[i])
  {
    if s != [] && !IsSpace(s[0]) {
      NonSpaceRunPrefix(s[1..]);
      assert s == [s[0]] + s[1..];
      forall i | 1 <= i < |NonSpaceRun(s)| ensures !IsSpace(s[i]) {
        assert s[i] == s[1..][i - 1];
      }
    }
  }

  /** `s.split(/\s+/)`: the pieces between maximal whitespace runs, with an
      empty piece for a run at either end. */
  function Words(s: string): (r: seq<string>)
    ensures |r| >= 1
    decreases |s|
  {
    var w := NonSpaceRun(s);
    var rest := s[|w|..];
    if rest == [] then [w]
    else
      assert rest[0] == s[|w|];
      [w] + Words(TrimLeft(rest))
  }

  /** The characters of `s` that are not whitespace, in order. */
  function NonSpaces(s: string): string {
    if s == [] then [] else (if IsSpace(s[0]) then [] else [s[0]]) + NonSpaces(s[1..])
  }

  function Concat(ws: seq<string>): string {
    if ws == [] then [] else ws[0] + Concat(ws[1..])
  }

  lemma ConcatCons(w: string, ws: seq<string>)
    ensures Concat([w] + ws) == w + Concat(ws)
  {
    assert ([w] + ws)[1..] == ws;
  }

  lemma {:induction false} NonSpacesAppend(a: string, b: string)
    ensures NonSpaces(a + b) == NonSpaces(a) + NonSpaces(b)
  {
    if a == [] {
      assert a + b == b;
    } else {
      assert (a + b)[0] == a[0];
      assert (a + b)[1..] == a[1..] + b;
      NonSpacesAppend(a[1..], b);
    }
  }

  lemma {:induction false} NonSpacesOfWord(w: string)
    requires forall i :: 0 <= i < |w| ==> !IsSpace(w[i])
    ensures NonSpaces(w) == w
  {
    if w != [] {
      NonSpacesOfWord(w[1..]);
    }
  }

  lemma {:induction false} NonSpacesOfSpaces(w: string)
    requires forall i :: 0 <= i < |w| ==> IsSpace(w[i])
    ensures NonSpaces(w) == []
  {
    if w != [] {
      NonSpacesOfSpaces(w[1..]);
    }
  }

  /** No whitespace in `w`. */
  predicate NoSpace(w: string) {
    forall i :: 0 <= i < |w| ==> !IsSpace(w[i])
  }

  /** One step of the split: the first piece, then the split of what
      follows the whitespace run after it. */
  lemma WordsStep(s: string)
    ensures var w := NonSpaceRun(s); var rest := s[|w|..];
      s == w + rest && NoSpace(w) &&
      (rest == [] ==> Words(s) == [w]) &&
      (rest != [] ==> |TrimLeft(rest)| < |s| && Words(s) == [w] + Words(TrimLeft(rest)) &&
                      rest == rest[..|rest| - |TrimLeft(rest)|] + TrimLeft(rest) &&
                      forall i :: 0 <= i < |rest| - |TrimLeft(rest)| ==> IsSpace(rest[i]))
  {
    var w := NonSpaceRun(s);
    var rest := s[|w|..];
    NonSpaceRunPrefix(s);
    assert s == w + rest;
    assert NoSpace(w) by {
      forall i | 0 <= i < |w| ensures !IsSpace(w[i]) {
        assert w[i] == s[i];
      }
    }
    if rest != [] {
      assert IsSpace(rest[0]);
      WordsRest(rest);
    }
  }

  lemma WordsRest(rest: string)
    requires rest != [] && IsSpace(rest[0])
    ensures |TrimLeft(rest)| < |rest|
    ensures rest == rest[..|rest| - |TrimLeft(rest)|] + TrimLeft(rest)
    ensures forall i :: 0 <= i < |rest| - |TrimLeft(rest)| ==> IsSpace(rest[i])
  {
    TrimLeftSuffix(rest);
  }

  /** No piece holds whitespace. */
  lemma {:induction false} WordsNoSpace(s: string)
    ensures forall k :: 0 <= k < |Words(s)| ==> NoSpace(Words(s)[k])
    decreases |s|
  {
    WordsStep(s);
    var w := NonSpaceRun(s);
    var rest := s[|w|..];
    if rest != [] {
      var t := TrimLeft(rest);
      WordsNoSpace(t);
      ConsNoSpace(w, Words(t));
    }
  }

  /** Together the pieces are all the non-whitespace characters of `s`, in
      order: the split only drops the whitespace runs. */
  lemma {:induction false} WordsConcat(s: string)
    ensures Concat(Words(s)) == NonSpaces(s)
    decreases |s|
  {
    WordsStep(s);
    var w := NonSpaceRun(s);
    var rest := s[|w|..];
    if rest == [] {
      assert s == w;
      NonSpacesOfWord(w);
      ConcatCons(w, []);
      assert w + [] == w;
    } else {
      var t := TrimLeft(rest);
      WordsConcat(t);
      var sp := rest[..|rest| - |t|];
      assert s == w + (sp + t);
      NonSpacesSplit(s, w, sp, t);
      ConcatCons(w, Words(t));
    }
  }

  lemma NonSpacesSplit(s: string, w: string, sp: string, t: string)
    requires s == w + (sp + t) && NoSpace(w)
    requires forall i :: 0 <= i < |sp| ==> IsSpace(sp[i])
    ensures NonSpaces(s) == w + NonSpaces(t)
  {
    NonSpacesAppend(w, sp + t);
    NonSpacesAppend(sp, t);
    NonSpacesOfWord(w);
    NonSpacesOfSpaces(sp);
    assert [] + NonSpaces(t) == NonSpaces(t);
  }

  lemma ConsNonEmpty(w: string, ws: seq<string>)
    requires w != [] && forall k :: 0 <= k < |ws| ==> ws[k] != []
    ensures forall k :: 0 <= k < |[w] + ws| ==> ([w] + ws)[k] != []
  {
  }

  lemma ConsNoSpace(w: string, ws: seq<string>)
    requires NoSpace(w) && forall k :: 0 <= k < |ws| ==> NoSpace(ws[k])
    ensures forall k :: 0 <= k < |[w] + ws| ==> NoSpace(([w] + ws)[k])
  {
  }

  /** A trimmed, non-empty string splits into non-empty pieces. */
  lemma {:induction false} WordsOfTrimmed(s: string)
    requires IsTrimmed(s) && s != []
    ensures forall k :: 0 <= k < |Words(s)| ==> Words(s)[k] != []
    decreases |s|
  {
    WordsStep(s);
    var w := NonSpaceRun(s);
    var rest := s[|w|..];
    assert w != [] by {
      assert !IsSpace(s[0]);
    }
    if rest != [] {
      var t := TrimLeft(rest);
      TrimmedRest(s, w, rest);
      WordsOfTrimmed(t);
      ConsNonEmpty(w, Words(t));
    }
  }

  /** What follows the first piece and its whitespace run, in a trimmed
      string, is again trimmed and non-empty. */
  lemma TrimmedRest(s: string, w: string, rest: string)
    requires IsTrimmed(s) && s == w + rest && rest != [] && IsSpace(rest[0])
    ensures TrimLeft(rest) != [] && IsTrimmed(TrimLeft(rest))
  {
    var t := TrimLeft(rest);
    WordsRest(rest);
    assert rest[|rest| - 1] == s[|s| - 1];
    assert !IsSpace(rest[|rest| - 1]);
    assert |t| >= 1;
    assert t[|t| - 1] == rest[|rest| - 1];
  }

  lemma {:induction false} NonSpaceRunAll(s: string)
    requires NoSpace(s)
    ensures NonSpaceRun(s) == s
  {
    if s != [] {
      NonSpaceRunAll(s[1..]);
    }
  }

  /** Without whitespace there is a single piece, the whole string. */
  lemma WordsOfWord(s: string)
    requires !HasSpace(s)
    ensures Words(s) == [s]
  {
    NonSpaceRunAll(s);
  }

  // ---------------------------------------------------------------------
  // _selectWord's regular expressions

  /** The leading run of word characters: what `[\w_]+` takes greedily. */
  function WordRun(s: string): (r: string)
    ensures |r| <= |s|
    ensures |r| < |s| ==> !IsWordChar(s[|r|])
    ensures s != [] && IsWordChar(s[0]) ==> |r| > 0
  {
    if s != [] && IsWordChar(s[0]) then [s[0]] + WordRun(s[1..]) else []
  }

  /** A marker character `m` immediately followed by a word character at
      index i: where `\.[\w_]+` or `#[\w_]+` can start. */
  predicate MarkerAt(s: string, m: char, i: int) {
    0 <= i && i + 1 < |s| && s[i] == m && IsWordChar(s[i + 1])
  }

  /** The leftmost index at or after k where a marker match starts. */
  function FindMarker(s: string, m: char, k: nat): (r: Option<nat>)
    ensures r.Some? ==> k <= r.value && MarkerAt(s, m, r.value)
    ensures r.Some? ==> forall i :: k <= i < r.value ==> !MarkerAt(s, m, i)
    ensures r.None? ==> forall i :: k <= i ==> !MarkerAt(s, m, i)
    decreases |s| - k
  {
    if k + 1 >= |s| then None
    else if MarkerAt(s, m, k) then Some(k)
    else FindMarker(s, m, k + 1)
  }

  /** What `[\w_]+(?:\.[\w_]+)*` takes greedily from the start of `t`: word
      runs joined by single dots. */
  function DottedRun(t: string): string
    decreases |t|
  {
    var w := WordRun(t);
    var rest := t[|w|..];
    if |w| > 0 && |rest| >= 2 && rest[0] == '.' && IsWordChar(rest[1]) then w + "." + DottedRun(rest[1..])
    else w
  }

  /** `s.replace(/\./, ' ')`: only the first dot becomes a space. */
  function ReplaceFirstDot(s: string): (r: string)
    ensures |r| == |s|
    ensures '.' !in s ==> r == s
  {
    if s == [] then []
    else if s[0] == '.' then " " + s[1..]
    else [s[0]] + ReplaceFirstDot(s[1..])
  }

  /** The first dot, and only it, is replaced. */
  lemma {:induction false} ReplaceFirstDotAt(a: string, b: string)
    requires '.' !in a
    ensures ReplaceFirstDot(a + "." + b) == a + " " + b
  {
    if a == [] {
      assert a + "." + b == "." + b;
      assert ("." + b)[1..] == b;
    } else {
      assert (a + "." + b)[0] == a[0];
      assert (a + "." + b)[1..] == a[1..] + "." + b;
      ReplaceFirstDotAt(a[1..], b);
    }
  }

  /** `/^([\w_]+)/`: the leading tag name, if any. */
  function TagOf(s: string): Option<string> {
    if s != [] && IsWordChar(s[0]) then Some(WordRun(s)) else None
  }

  /** `/\.([\w_]+(?:\.[\w_]+)*)/` on the leftmost dot followed by a word
      character, with the capture passed through `replace(/\./, ' ')`: the
      key handed to `getElementsByClassName`. */
  function ClassKey(s: string): Option<string> {
    match FindMarker(s, '.', 0)
    case None => None
    case Some(k) => Some(ReplaceFirstDot(DottedRun(s[k + 1..])))
  }

  /** `/#([\w_]+)/`: the word after the leftmost `#` followed by a word
      character. */
  function IdOf(s: string): Option<string> {
    match FindMarker(s, '#', 0)
    case None => None
    case Some(k) => Some(WordRun(s[k + 1..]))
  }

  // ---------------------------------------------------------------------
  // fragments written in the form the engine reads

  /** `.c1.c2…` for the given class names. */
  function Dots(classes: seq<string>): string {
    if classes == [] then [] else "." + (classes[0] + Dots(classes[1..]))
  }

  /** `c1.c2…`: the capture of the class expression. */
  function JoinDots(classes: seq<string>): string
    requires classes != []
  {
    if |classes| == 1 then classes[0] else classes[0] + "." + JoinDots(classes[1..])
  }

  function IdPart(id: Option<string>): string {
    if id.Some? then "#" + id.value else []
  }

  /** A fragment `tag.c1.c2#id`, each part optional. */
  function Fragment(tag: string, classes: seq<string>, id: Option<string>): string {
    tag + (Dots(classes) + IdPart(id))
  }

  lemma Assoc<T>(a: seq<T>, b: seq<T>, c: seq<T>)
    ensures (a + b) + c == a + (b + c)
  {
  }

  predicate WellFormedParts(tag: string, classes: seq<string>, id: Option<string>) {
    (tag == [] || IsWord(tag)) &&
    (forall k :: 0 <= k < |classes| ==> IsWord(classes[k])) &&
    (id.Some? ==> IsWord(id.value))
  }

  /** A word followed by nothing or a non-word character is read whole. */
  lemma {:induction false} WordRunOf(w: string, t: string)
    requires forall i :: 0 <= i < |w| ==> IsWordChar(w[i])
    requires t == [] || !IsWordChar(t[0])
    ensures WordRun(w + t) == w
  {
    if w == [] {
      assert w + t == t;
    } else {
      assert (w + t)[0] == w[0];
      assert (w + t)[1..] == w[1..] + t;
      WordRunOf(w[1..], t);
    }
  }

  lemma {:induction false} DotsChars(classes: seq<string>)
    requires forall k :: 0 <= k < |classes| ==> IsWord(classes[k])
    ensures forall i :: 0 <= i < |Dots(classes)| ==> Dots(classes)[i] == '.' || IsWordChar(Dots(classes)[i])
  {
    if classes != [] {
      DotsChars(classes[1..]);
      var d := Dots(classes);
      var c := classes[0];
      var rest := Dots(classes[1..]);
      assert d == "." + (c + rest);
      forall i | 0 <= i < |d| ensures d[i] == '.' || IsWordChar(d[i]) {
        if 1 <= i < 1 + |c| {
          assert d[i] == c[i - 1];
        } else if i >= 1 + |c| {
          assert d[i] == rest[i - 1 - |c|];
        }
      }
    }
  }

  /** One step of the class expression: a word, then either a dot and a
      further word or the end of the match. */
  lemma DottedRunStep(c: string, rest: string)
    requires IsWord(c)
    requires rest == [] || !IsWordChar(rest[0])
    ensures DottedRun(c + rest) ==
      if |rest| >= 2 && rest[0] == '.' && IsWordChar(rest[1]) then c + "." + DottedRun(rest[1..]) else c
  {
    WordRunOf(c, rest);
    assert (c + rest)[|c|..] == rest;
  }

  /** The class expression reads back the dotted class names. */
  lemma {:induction false} DottedRunOf(classes: seq<string>, id: Option<string>)
    requires classes != [] && forall k :: 0 <= k < |classes| ==> IsWord(classes[k])
    requires id.Some? ==> IsWord(id.value)
    ensures DottedRun(classes[0] + (Dots(classes[1..]) + IdPart(id))) == JoinDots(classes)
    decreases |classes|
  {
    var c, cs, p := classes[0], classes[1..], IdPart(id);
    if cs != [] {
      var t := cs[0] + (Dots(cs[1..]) + p);
      Assoc(".", cs[0] + Dots(cs[1..]), p);
      Assoc(cs[0], Dots(cs[1..]), p);
      assert Dots(cs) + p == "." + t;
      assert IsWord(cs[0]);
      assert t[0] == cs[0][0];
      DottedRunDot(c, t);
      DottedRunOf(cs, id);
    } else {
      assert Dots(cs) + p == p;
      if id.Some? {
        assert p[0] == '#';
      }
      DottedRunStep(c, p);
    }
  }

  /** The leftmost marker match is at n when n is a match and no index
      before it holds the marker. */
  lemma FindMarkerFirst(s: string, m: char, n: nat)
    requires MarkerAt(s, m, n)
    requires forall i :: 0 <= i < n ==> s[i] != m
    ensures FindMarker(s, m, 0) == Some(n)
  {
  }

  lemma FindMarkerNone(s: string, m: char)
    requires forall i :: 0 <= i < |s| ==> s[i] != m
    ensures FindMarker(s, m, 0) == None
  {
  }

  /** The marker-free parts of a fragment: the tag holds neither marker,
      the class part only dots and word characters, the id part a `#` and
      word characters. */
  lemma FragmentChars(tag: string, classes: seq<string>, id: Option<string>)
    requires WellFormedParts(tag, classes, id)
    ensures var s := Fragment(tag, classes, id);
      (forall i :: 0 <= i < |tag| + |Dots(classes)| ==> s[i] != '#') &&
      (classes == [] ==> forall i :: 0 <= i < |s| ==> s[i] != '.')
  {
    var d := Dots(classes);
    var p := IdPart(id);
    var r := d + p;
    var s := Fragment(tag, classes, id);
    assert s == tag + r;
    DotsChars(classes);
    forall i | 0 <= i < |tag| + |d| ensures s[i] != '#' {
      if i >= |tag| {
        assert s[i] == r[i - |tag|];
        assert r[i - |tag|] == d[i - |tag|];
      } else {
        assert s[i] == tag[i];
      }
    }
    if classes == [] {
      assert r == p;
      forall i | 0 <= i < |s| ensures s[i] != '.' {
        if i < |tag| {
          assert s[i] == tag[i];
        } else if i > |tag| {
          assert s[i] == p[i - |tag|];
          assert p[i - |tag|] == id.value[i - |tag| - 1];
        }
      }
    }
  }

  /** Reading a well-formed fragment gives back its tag. */
  lemma ParseTag(tag: string, classes: seq<string>, id: Option<string>)
    requires WellFormedParts(tag, classes, id)
    ensures TagOf(Fragment(tag, classes, id)) == (if tag == [] then None else Some(tag))
  {
    var d, p := Dots(classes), IdPart(id);
    var s := Fragment(tag, classes, id);
    assert s == tag + (d + p);
    if classes != [] {
      assert (d + p)[0] == '.';
    } else if id.Some? {
      assert (d + p)[0] == '#';
    }
    if tag != [] {
      WordRunOf(tag, d + p);
    }
  }

  /** The class key of a string whose first dot starts `t`, a word
      character away. */
  lemma ClassKeyAt(a: string, t: string)
    requires '.' !in a && t != [] && IsWordChar(t[0])
    ensures ClassKey(a + ("." + t)) == Some(ReplaceFirstDot(DottedRun(t)))
  {
    var s := a + ("." + t);
    var n := |a|;
    assert s[n] == '.' && s[n + 1] == t[0];
    forall i | 0 <= i < n ensures s[i] != '.' {
      assert s[i] == a[i];
    }
    FindMarkerFirst(s, '.', n);
    assert s[n + 1..] == t;
  }

  /** The id of a string whose first `#` is followed by the word `w`. */
  lemma IdOfAt(a: string, w: string)
    requires '#' !in a && IsWord(w)
    ensures IdOf(a + ("#" + w)) == Some(w)
  {
    var s := a + ("#" + w);
    var n := |a|;
    assert s[n] == '#' && s[n + 1] == w[0];
    forall i | 0 <= i < n ensures s[i] != '#' {
      assert s[i] == a[i];
    }
    FindMarkerFirst(s, '#', n);
    assert s[n + 1..] == w;
    WordRunOf(w, []);
    assert w + [] == w;
  }

  lemma MarkerFree(s: string, m: char)
    requires forall i :: 0 <= i < |s| ==> s[i] != m
    ensures m !in s
  {
  }

  /** Reading a well-formed fragment gives back its class names, dotted,
      with the first dot made a space. */
  lemma ParseClassKey(tag: string, classes: seq<string>, id: Option<string>)
    requires WellFormedParts(tag, classes, id)
    ensures ClassKey(Fragment(tag, classes, id)) == (if classes == [] then None else Some(ReplaceFirstDot(JoinDots(classes))))
  {
    var s := Fragment(tag, classes, id);
    if classes == [] {
      FragmentChars(tag, classes, id);
      FindMarkerNone(s, '.');
    } else {
      var c, cs, p := classes[0], classes[1..], IdPart(id);
      var t := c + (Dots(cs) + p);
      Assoc(".", c + Dots(cs), p);
      Assoc(c, Dots(cs), p);
      assert Dots(classes) + p == "." + t;
      TagHasNoDot(tag);
      assert IsWord(c);
      assert t[0] == c[0];
      ClassKeyAt(tag, t);
      DottedRunOf(classes, id);
    }
  }

  lemma TagHasNoDot(tag: string)
    requires tag == [] || IsWord(tag)
    ensures '.' !in tag
  {
    forall i | 0 <= i < |tag| ensures tag[i] != '.' {
      assert IsWordChar(tag[i]);
    }
    MarkerFree(tag, '.');
  }

  /** Reading a well-formed fragment gives back its id. */
  lemma ParseId(tag: string, classes: seq<string>, id: Option<string>)
    requires WellFormedParts(tag, classes, id)
    ensures IdOf(Fragment(tag, classes, id)) == id
  {
    var d := Dots(classes);
    var s := Fragment(tag, classes, id);
    FragmentChars(tag, classes, id);
    if id.None? {
      assert s == tag + d;
      FindMarkerNone(s, '#');
    } else {
      var a := tag + d;
      Assoc(tag, d, "#" + id.value);
      assert s == a + ("#" + id.value);
      forall i | 0 <= i < |a| ensures a[i] != '#' {
        assert a[i] == s[i];
      }
      MarkerFree(a, '#');
      IdOfAt(a, id.value);
    }
  }

  /** `.a.b.c` asks `getElementsByClassName` for `"a b.c"`: a class `a` and
      a class literally named `b.c`. */
  lemma ClassKeyOfThreeClasses()
    ensures ClassKey(".a.b.c") == Some("a b.c")
  {
    DottedRunOfThree();
    FirstDotOfThree();
    ClassKeyAt("", "a.b.c");
    assert "" + ("." + "a.b.c") == ".a.b.c";
  }

  lemma DottedRunOfThree()
    ensures DottedRun("a.b.c") == "a.b.c"
  {
    DottedRunOfTwo();
    DottedRunDot("a", "b.c");
    assert "a" + ("." + "b.c") == "a.b.c";
    assert "a" + "." + "b.c" == "a.b.c";
  }

  lemma DottedRunOfTwo()
    ensures DottedRun("b.c") == "b.c"
  {
    DottedRunWord("c");
    DottedRunDot("b", "c");
    assert "b" + ("." + "c") == "b.c";
    assert "b" + "." + "c" == "b.c";
  }

  lemma FirstDotOfThree()
    ensures ReplaceFirstDot("a.b.c") == "a b.c"
  {
    ReplaceFirstDotAt("a", "b.c");
    assert "a" + "." + "b.c" == "a.b.c";
    assert "a" + " " + "b.c" == "a b.c";
  }

  lemma DottedRunWord(c: string)
    requires IsWord(c)
    ensures DottedRun(c) == c
  {
    DottedRunStep(c, "");
    assert c + "" == c;
  }

  lemma DottedRunDot(c: string, t: string)
    requires IsWord(c) && t != [] && IsWordChar(t[0])
    ensures DottedRun(c + ("." + t)) == c + "." + DottedRun(t)
  {
    DottedRunStep(c, "." + t);
    assert ("." + t)[1..] == t;
  }
}
