/**
  Parsing of a selector-like element descriptor such as `tag#id.c1.c2[k=v]`.

  The builder reads the descriptor with four regular expressions:
  `^[\w\-]+` (the tag), `#([\w\-]+)` (the id), `\.[\w\-]+` with the global
  flag (the classes) and `\[([\w\-]+)=([^\[\]]+)\]` with the global flag
  (the bracket attributes). Each becomes a hand-written scanner here; the
  scanners for id and classes run over the whole string, bracket contents
  included, exactly as the regular expressions do.
 */
module Descriptor {
  import opened JsValues

  /** The character class `[\w\-]` (ASCII letters, digits, `_` and `-`). */
  predicate IsWordChar(c: char) {
    ('A' <= c <= 'Z') || ('a' <= c <= 'z') || ('0' <= c <= '9') || c == '_' || c == '-'
  }

  predicate AllWordChars(s: string) {
    forall i :: 0 <= i < |s| ==> IsWordChar(s[i])
  }

  /** The greedy run `[\w\-]*` at the start of `s`. */
  function WordRun(s: string): (r: string)
    ensures r <= s
    ensures AllWordChars(r)
    ensures |r| < |s| ==> !IsWordChar(s[|r|])
  {
    if s != [] && IsWordChar(s[0]) then [s[0]] + WordRun(s[1..]) else []
  }

  /** A word run is determined by what it is followed by. */
  lemma {:induction false} WordRunUnique(s: string, n: string)
    requires n <= s && AllWordChars(n)
    requires |n| < |s| ==> !IsWordChar(s[|n|])
    ensures WordRun(s) == n
  {
    if n != [] {
      WordRunUnique(s[1..], n[1..]);
    } else if s != [] {
      assert !IsWordChar(s[0]);
    }
  }

  /** `t` is spelled in `s` from position `i` on. */
  predicate SpellsAt(s: string, i: nat, t: string) {
    i + |t| <= |s| && forall k :: 0 <= k < |t| ==> s[i + k] == t[k]
  }

  /** Spelling `a + b` is spelling `a`, then `b`. */
  lemma SpellsSplit(s: string, i: nat, a: string, b: string)
    requires SpellsAt(s, i, a + b)
    ensures SpellsAt(s, i, a) && SpellsAt(s, i + |a|, b)
  {
    forall k | 0 <= k < |a| ensures s[i + k] == a[k] {
      assert (a + b)[k] == a[k];
    }
    forall k | 0 <= k < |b| ensures s[i + |a| + k] == b[k] {
      assert s[i + (|a| + k)] == (a + b)[|a| + k];
    }
  }

  /** Where a word is spelled, every position holds a word character. */
  lemma SpelledWordChars(s: string, i: nat, t: string)
    requires SpellsAt(s, i, t) && AllWordChars(t)
    ensures forall p :: i <= p < i + |t| ==> IsWordChar(s[p])
  {
    forall p | i <= p < i + |t| ensures IsWordChar(s[p]) {
      assert s[i + (p - i)] == t[p - i];
    }
  }

  /** The word run at position `i` of `s`, given what it spells there. */
  lemma {:induction false} WordRunFrom(s: string, i: nat, n: string)
    requires SpellsAt(s, i, n) && AllWordChars(n)
    requires i + |n| < |s| ==> !IsWordChar(s[i + |n|])
    ensures WordRun(s[i..]) == n
    decreases |n|
  {
    if n != [] {
      assert s[i..][0] == s[i];
      assert s[i..][1..] == s[i + 1..];
      assert s[i + 0] == n[0] && IsWordChar(n[0]);
      assert forall k :: 0 <= k < |n| - 1 ==> s[i + 1 + k] == n[1..][k];
      WordRunFrom(s, i + 1, n[1..]);
      assert [n[0]] + n[1..] == n;
    } else if i < |s| {
      assert s[i..][0] == s[i];
    }
  }

  // ---------------------------------------------------------------- tag

  /** `name.match(/^[\w\-]+/)`, defaulting to `div` when nothing matches. */
  function TagName(s: string): (t: string)
    ensures s != [] && IsWordChar(s[0]) ==>
      t <= s && AllWordChars(t) && (|t| < |s| ==> !IsWordChar(s[|t|]))
    ensures !(s != [] && IsWordChar(s[0])) ==> t == "div"
    ensures t != ""
  {
    var run := WordRun(s);
    if run == "" then "div" else run
  }

  // ----------------------------------------------------------------- id

  /** Position `p` starts a match of `#[\w\-]`. */
  predicate IdAt(s: string, p: int) {
    0 <= p && p + 1 < |s| && s[p] == '#' && IsWordChar(s[p + 1])
  }

  /** The first match of `#([\w\-]+)` at or after position `i`: its group. */
  function IdFrom(s: string, i: nat): Option<string>
    decreases |s| - i
  {
    if i + 1 >= |s| then None
    else if IdAt(s, i) then Some(WordRun(s[i + 1..]))
    else IdFrom(s, i + 1)
  }

  /** The scan from `i` finds the first `#` followed by a word character. */
  lemma {:induction false} IdFromSpec(s: string, i: nat)
    ensures IdFrom(s, i).None? <==> forall p :: i <= p ==> !IdAt(s, p)
    ensures IdFrom(s, i).Some? ==>
      exists p :: i <= p && IdAt(s, p) && (forall q :: i <= q < p ==> !IdAt(s, q))
                  && IdFrom(s, i).value == WordRun(s[p + 1..])
    decreases |s| - i
  {
    if i + 1 >= |s| {
      assert IdFrom(s, i) == None;
    } else if IdAt(s, i) {
      assert IdFrom(s, i) == Some(WordRun(s[i + 1..]));
    } else {
      IdFromSpec(s, i + 1);
      assert IdFrom(s, i) == IdFrom(s, i + 1);
      if IdFrom(s, i).Some? {
        var p :| i + 1 <= p && IdAt(s, p) && (forall q :: i + 1 <= q < p ==> !IdAt(s, q))
                 && IdFrom(s, i).value == WordRun(s[p + 1..]);
        assert forall q :: i <= q < p ==> !IdAt(s, q);
      }
    }
  }

  /** Positions without a `#` do not change where the id scan ends up. */
  lemma {:induction false} IdSkip(s: string, i: nat, k: nat)
    requires i <= k && forall q :: i <= q < k && q < |s| ==> s[q] != '#'
    ensures IdFrom(s, i) == IdFrom(s, k)
    decreases k - i
  {
    if i < k {
      if i < |s| { assert s[i] != '#'; }
      IdSkip(s, i + 1, k);
    }
  }

  /** `name.match(/#([\w\-]+)/)`: the id named by the descriptor, if any. */
  function IdOf(s: string): Option<string> {
    IdFrom(s, 0)
  }

  /** The id is the maximal word run after the first `#` that is followed by
      a word character; there is none exactly when no `#` is. */
  lemma IdOfSpec(s: string)
    ensures IdOf(s).None? <==> forall p :: !IdAt(s, p)
    ensures IdOf(s).Some? ==>
      exists p :: IdAt(s, p) && (forall q :: 0 <= q < p ==> !IdAt(s, q))
                  && IdOf(s).value == WordRun(s[p + 1..]) && IdOf(s).value != ""
  {
    var r := IdOf(s);
    IdFromSpec(s, 0);
    if r.None? {
      forall p ensures !IdAt(s, p) {
        if 0 <= p { assert !IdAt(s, p); }
      }
    } else {
      var p :| 0 <= p && IdAt(s, p) && (forall q :: 0 <= q < p ==> !IdAt(s, q)) && r.value == WordRun(s[p + 1..]);
      assert s[p + 1..][0] == s[p + 1];
    }
  }

  // ------------------------------------------------------------- classes

  /** Position `p` starts a match of `\.[\w\-]`. */
  predicate DotAt(s: string, p: int) {
    0 <= p && p + 1 < |s| && s[p] == '.' && IsWordChar(s[p + 1])
  }

  /** The matches of `/\.[\w\-]+/g` from position `i` on, each with its dot,
      scanning on after the end of every match as a global regular
      expression does. */
  function ClassMatchesFrom(s: string, i: nat): seq<string>
    decreases |s| - i
  {
    if i + 1 >= |s| then []
    else if DotAt(s, i) then
      var m := "." + WordRun(s[i + 1..]);
      [m] + ClassMatchesFrom(s, i + |m|)
    else ClassMatchesFrom(s, i + 1)
  }

  /** Reference definition of the class list: the word run after every
      `.` that is followed by a word character, left to right. */
  function ClassRunsFrom(s: string, i: nat): seq<string>
    decreases |s| - i
  {
    if i >= |s| then []
    else (if DotAt(s, i) then [WordRun(s[i + 1..])] else []) + ClassRunsFrom(s, i + 1)
  }

  function Dotted(runs: seq<string>): (r: seq<string>)
    ensures |r| == |runs| && forall k :: 0 <= k < |runs| ==> r[k] == "." + runs[k]
  {
    seq(|runs|, k requires 0 <= k < |runs| => "." + runs[k])
  }

  /** A position that does not start a dot-run contributes no class. */
  lemma ClassRunsStep(s: string, i: nat)
    requires i < |s| && !DotAt(s, i)
    ensures ClassRunsFrom(s, i) == ClassRunsFrom(s, i + 1)
  {
    assert ClassRunsFrom(s, i) == [] + ClassRunsFrom(s, i + 1);
  }

  /** No class match starts inside a word run. */
  lemma {:induction false} SkipWordChars(s: string, i: nat, j: nat)
    requires i <= j <= |s|
    requires forall p :: i <= p < j ==> IsWordChar(s[p])
    ensures ClassRunsFrom(s, i) == ClassRunsFrom(s, j)
    decreases j - i
  {
    if i < j {
      ClassRunsStep(s, i);
      SkipWordChars(s, i + 1, j);
    }
  }

  /** A dot-run at `i` is the first class from `i`. */
  lemma ClassRunsAtDot(s: string, i: nat)
    requires DotAt(s, i)
    ensures ClassRunsFrom(s, i) == [WordRun(s[i + 1..])] + ClassRunsFrom(s, i + 1)
  {
  }

  /** A dot-run at `i` is the first match from `i`; the scan resumes after it. */
  lemma ClassMatchesAtDot(s: string, i: nat, run: string, j: nat)
    requires DotAt(s, i) && run == WordRun(s[i + 1..]) && j == i + 1 + |run|
    ensures ClassMatchesFrom(s, i) == ["." + run] + ClassMatchesFrom(s, j)
  {
  }

  lemma DottedCons(run: string, rest: seq<string>)
    ensures Dotted([run] + rest) == ["." + run] + Dotted(rest)
  {
  }

  /** The dot case of `ClassMatchesAreDottedRuns`: a match at `i`, then the
      scan resumes at `j`, where the claim already holds. */
  lemma DotStep(s: string, i: nat, run: string, j: nat)
    requires DotAt(s, i) && run == WordRun(s[i + 1..]) && j == i + 1 + |run|
    requires ClassMatchesFrom(s, j) == Dotted(ClassRunsFrom(s, j))
    ensures ClassMatchesFrom(s, i) == Dotted(ClassRunsFrom(s, i))
  {
    forall p | i + 1 <= p < j ensures IsWordChar(s[p]) {
      assert s[p] == run[p - i - 1];
    }
    calc {
      ClassMatchesFrom(s, i);
      { ClassMatchesAtDot(s, i, run, j); }
      ["." + run] + ClassMatchesFrom(s, j);
      ["." + run] + Dotted(ClassRunsFrom(s, j));
      { DottedCons(run, ClassRunsFrom(s, j)); }
      Dotted([run] + ClassRunsFrom(s, j));
      { SkipWordChars(s, i + 1, j); ClassRunsAtDot(s, i); }
      Dotted(ClassRunsFrom(s, i));
    }
  }

  /** The global scan finds every dot-run, not only the non-overlapping ones:
      a dot can never lie inside a run. */
  lemma {:induction false} ClassMatchesAreDottedRuns(s: string, i: nat)
    ensures ClassMatchesFrom(s, i) == Dotted(ClassRunsFrom(s, i))
    decreases |s| - i
  {
    if i + 1 >= |s| {
      if i < |s| {
        assert !DotAt(s, i);
        assert ClassRunsFrom(s, i) == ClassRunsFrom(s, i + 1);
      }
    } else if DotAt(s, i) {
      var run := WordRun(s[i + 1..]);
      ClassMatchesAreDottedRuns(s, i + 1 + |run|);
      DotStep(s, i, run, i + 1 + |run|);
    } else {
      ClassMatchesAreDottedRuns(s, i + 1);
      assert ClassRunsFrom(s, i) == [] + ClassRunsFrom(s, i + 1);
    }
  }

  /** `.replace(/\./g, '')` */
  function RemoveDots(s: string): (r: string)
    ensures '.' !in r
  {
    if s == [] then [] else (if s[0] == '.' then [] else [s[0]]) + RemoveDots(s[1..])
  }

  /** Removing dots keeps every other character. */
  lemma {:induction false} RemoveDotsKeeps(s: string, c: char)
    requires c != '.'
    ensures c in RemoveDots(s) <==> c in s
  {
    if s != [] {
      RemoveDotsKeeps(s[1..], c);
      assert s == [s[0]] + s[1..];
    }
  }

  lemma {:induction false} RemoveDotsAppend(a: string, b: string)
    ensures RemoveDots(a + b) == RemoveDots(a) + RemoveDots(b)
  {
    if a == [] {
      assert a + b == b;
    } else {
      var head := if a[0] == '.' then "" else [a[0]];
      assert (a + b)[0] == a[0] && (a + b)[1..] == a[1..] + b;
      assert RemoveDots(a + b) == head + RemoveDots(a[1..] + b);
      RemoveDotsAppend(a[1..], b);
      assert RemoveDots(a) == head + RemoveDots(a[1..]);
    }
  }

  lemma {:induction false} RemoveDotsOfWord(s: string)
    requires AllWordChars(s)
    ensures RemoveDots(s) == s
  {
    if s != [] {
      assert s[0] != '.';
      RemoveDotsOfWord(s[1..]);
    }
  }

  /** Erasing the dots of `"." + run` gives `run`. */
  lemma DottedRunStrips(run: string)
    requires AllWordChars(run)
    ensures RemoveDots("." + run) == run
  {
    RemoveDotsAppend(".", run);
    RemoveDotsOfWord(run);
  }

  /** `temp.join(' ').replace(/\./g, '')`: joining dotted word runs and
      erasing the dots gives the runs joined by single spaces. */
  lemma {:induction false} StripJoinedDots(runs: seq<string>)
    requires forall k :: 0 <= k < |runs| ==> AllWordChars(runs[k])
    ensures RemoveDots(JoinWith(Dotted(runs), " ")) == JoinWith(runs, " ")
  {
    var d := Dotted(runs);
    if |runs| == 1 {
      DottedRunStrips(runs[0]);
    } else if |runs| > 1 {
      assert d[1..] == Dotted(runs[1..]);
      var rest := JoinWith(d[1..], " ");
      assert JoinWith(d, " ") == (d[0] + " ") + rest;
      StripJoinedDots(runs[1..]);
      RemoveDotsAppend(d[0] + " ", rest);
      RemoveDotsAppend(d[0], " ");
      assert RemoveDots(" ") == " ";
      DottedRunStrips(runs[0]);
    }
  }

  /** `name.match(/\.[\w\-]+/g)` joined by spaces with the dots removed;
      `None` when there is no match (the class name is then left alone). */
  function ClassNameOf(s: string): Option<string> {
    var ms := ClassMatchesFrom(s, 0);
    if ms == [] then None else Some(RemoveDots(JoinWith(ms, " ")))
  }

  lemma ClassRunsAreWords(s: string, i: nat)
    ensures forall k :: 0 <= k < |ClassRunsFrom(s, i)| ==>
      AllWordChars(ClassRunsFrom(s, i)[k]) && ClassRunsFrom(s, i)[k] != ""
    decreases |s| - i
  {
    if i < |s| {
      ClassRunsAreWords(s, i + 1);
      if DotAt(s, i) {
        assert s[i + 1..][0] == s[i + 1];
      }
    }
  }

  /** The class name is every `.`-run of the descriptor in order, without
      dots, joined by single spaces; it is unset when there is none. */
  lemma ClassNameOfSpec(s: string)
    ensures ClassNameOf(s) ==
      if ClassRunsFrom(s, 0) == [] then None else Some(JoinWith(ClassRunsFrom(s, 0), " "))
  {
    ClassMatchesAreDottedRuns(s, 0);
    ClassRunsAreWords(s, 0);
    StripJoinedDots(ClassRunsFrom(s, 0));
  }

  // ---------------------------------------------------- bracket attributes

  predicate IsBracket(c: char) {
    c == '[' || c == ']'
  }

  predicate NoBrackets(s: string) {
    forall i :: 0 <= i < |s| ==> !IsBracket(s[i])
  }

  /** Where the greedy run `[\w\-]*` starting at position `i` ends. */
  function WordEnd(s: string, i: nat): (j: nat)
    requires i <= |s|
    ensures i <= j <= |s|
    decreases |s| - i
  {
    if i < |s| && IsWordChar(s[i]) then WordEnd(s, i + 1) else i
  }

  /** Where the greedy run `[^\[\]]*` starting at position `i` ends. */
  function ValueEnd(s: string, i: nat): (j: nat)
    requires i <= |s|
    ensures i <= j <= |s|
    decreases |s| - i
  {
    if i < |s| && !IsBracket(s[i]) then ValueEnd(s, i + 1) else i
  }

  /** The run found is made of word characters and cannot be extended. */
  lemma {:induction false} WordEndSpec(s: string, i: nat)
    requires i <= |s|
    ensures forall k :: i <= k < WordEnd(s, i) ==> IsWordChar(s[k])
    ensures WordEnd(s, i) < |s| ==> !IsWordChar(s[WordEnd(s, i)])
    decreases |s| - i
  {
    if i < |s| && IsWordChar(s[i]) {
      WordEndSpec(s, i + 1);
    }
  }

  /** Conversely, a run of word characters followed by a non-word character
      (or the end) is the run found. */
  lemma {:induction false} WordEndAt(s: string, i: nat, j: nat)
    requires i <= j <= |s|
    requires forall k :: i <= k < j ==> IsWordChar(s[k])
    requires j < |s| ==> !IsWordChar(s[j])
    ensures WordEnd(s, i) == j
    decreases j - i
  {
    if i < j {
      WordEndAt(s, i + 1, j);
    }
  }

  /** The index form agrees with `WordRun`. */
  lemma {:induction false} WordEndIsWordRun(s: string, i: nat)
    requires i <= |s|
    ensures WordRun(s[i..]) == s[i..WordEnd(s, i)]
    decreases |s| - i
  {
    if i < |s| && IsWordChar(s[i]) {
      WordEndIsWordRun(s, i + 1);
      assert s[i..][0] == s[i] && s[i..][1..] == s[i + 1..];
      assert s[i..WordEnd(s, i)] == [s[i]] + s[i + 1..WordEnd(s, i)];
    } else if i < |s| {
      assert s[i..][0] == s[i];
    }
  }

  lemma {:induction false} ValueEndSpec(s: string, i: nat)
    requires i <= |s|
    ensures forall k :: i <= k < ValueEnd(s, i) ==> !IsBracket(s[k])
    ensures ValueEnd(s, i) < |s| ==> IsBracket(s[ValueEnd(s, i)])
    decreases |s| - i
  {
    if i < |s| && !IsBracket(s[i]) {
      ValueEndSpec(s, i + 1);
    }
  }

  lemma {:induction false} ValueEndAt(s: string, i: nat, j: nat)
    requires i <= j <= |s|
    requires forall k :: i <= k < j ==> !IsBracket(s[k])
    requires j < |s| ==> IsBracket(s[j])
    ensures ValueEnd(s, i) == j
    decreases j - i
  {
    if i < j {
      ValueEndAt(s, i + 1, j);
    }
  }

  /** One `[name=value]` match: its two groups and the position after it. */
  datatype BracketMatch = BracketMatch(name: string, value: string, end: nat)

  /** The text a match covers. */
  function BracketText(name: string, value: string): string {
    "[" + name + "=" + value + "]"
  }

  predicate WellFormedPair(name: string, value: string) {
    name != "" && AllWordChars(name) && value != "" && NoBrackets(value)
  }

  /** `\[([\w\-]+)=([^\[\]]+)\]` tried at exactly position `p`. Both groups
      are greedy and what must follow each (`=`, `]`) is outside its
      character class, so backtracking can never find another match. */
  function BracketAt(s: string, p: nat): (r: Option<BracketMatch>)
    ensures r.Some? ==> p < r.value.end <= |s|
  {
    if p < |s| && s[p] == '[' then
      var q := WordEnd(s, p + 1);
      if q > p + 1 && q < |s| && s[q] == '=' then
        var e := ValueEnd(s, q + 1);
        if e > q + 1 && e < |s| && s[e] == ']' then Some(BracketMatch(s[p + 1..q], s[q + 1..e], e + 1))
        else None
      else None
    else None
  }

  /** What a match at `p` covers is exactly `[name=value]`, well formed. */
  lemma BracketAtSound(s: string, p: nat)
    requires BracketAt(s, p).Some?
    ensures var m := BracketAt(s, p).value;
      WellFormedPair(m.name, m.value) && m.end == p + |BracketText(m.name, m.value)|
      && s[p..m.end] == BracketText(m.name, m.value)
  {
    var m := BracketAt(s, p).value;
    var q := WordEnd(s, p + 1);
    var e := ValueEnd(s, q + 1);
    WordEndSpec(s, p + 1);
    ValueEndSpec(s, q + 1);
    assert m.name == s[p + 1..q] && m.value == s[q + 1..e];
    assert AllWordChars(m.name) by {
      forall k | 0 <= k < |m.name| ensures IsWordChar(m.name[k]) {
        assert m.name[k] == s[p + 1 + k];
      }
    }
    assert NoBrackets(m.value) by {
      forall k | 0 <= k < |m.value| ensures !IsBracket(m.value[k]) {
        assert m.value[k] == s[q + 1 + k];
      }
    }
    SliceAtMarks(s, p, q, e);
  }

  /** `s[p..e + 1]` cut at the marks `p`, `q` and `e`. */
  lemma SliceAtMarks(s: string, p: nat, q: nat, e: nat)
    requires p < q < e < |s|
    ensures s[p..e + 1] == [s[p]] + s[p + 1..q] + [s[q]] + s[q + 1..e] + [s[e]]
  {
    var r := [s[p]] + s[p + 1..q] + [s[q]] + s[q + 1..e] + [s[e]];
    forall k | 0 <= k < |r| ensures r[k] == s[p + k] {
      if 0 < k < q - p {
        assert r[k] == s[p + 1..q][k - 1];
      } else if q - p < k < e - p {
        assert r[k] == s[q + 1..e][k - (q - p) - 1];
      }
    }
  }

  /** Where the parts of `[name=value]` sit in its text. */
  lemma BracketTextLayout(name: string, value: string)
    ensures var t := BracketText(name, value);
      |t| == |name| + |value| + 3 && t[0] == '[' && t[1 + |name|] == '=' && t[|t| - 1] == ']'
    ensures forall k :: 0 <= k < |name| ==> BracketText(name, value)[1 + k] == name[k]
    ensures forall k :: 0 <= k < |value| ==> BracketText(name, value)[2 + |name| + k] == value[k]
  {
  }

  /** Conversely, every well-formed `[name=value]` at `p` is matched there. */
  lemma BracketAtComplete(s: string, p: nat, name: string, value: string)
    requires WellFormedPair(name, value)
    requires p + |BracketText(name, value)| <= |s|
    requires s[p..p + |BracketText(name, value)|] == BracketText(name, value)
    ensures BracketAt(s, p) == Some(BracketMatch(name, value, p + |BracketText(name, value)|))
  {
    var t := BracketText(name, value);
    assert SpellsAt(s, p, t) by {
      forall k | 0 <= k < |t| ensures s[p + k] == t[k] {
        assert s[p..p + |t|][k] == s[p + k];
      }
    }
    BracketAtSpelled(s, p, name, value);
  }

  lemma BracketAtSpelled(s: string, p: nat, name: string, value: string)
    requires WellFormedPair(name, value) && SpellsAt(s, p, BracketText(name, value))
    ensures BracketAt(s, p) == Some(BracketMatch(name, value, p + |BracketText(name, value)|))
  {
    BracketPieces(s, p, name, value);
    BracketAtPieces(s, p, name, value);
  }

  /** Where the pieces of a spelled `[name=value]` lie in `s`. */
  lemma BracketPieces(s: string, p: nat, name: string, value: string)
    requires SpellsAt(s, p, BracketText(name, value))
    ensures |BracketText(name, value)| == |name| + |value| + 3
    ensures s[p] == '[' && s[p + 1 + |name|] == '=' && s[p + 2 + |name| + |value|] == ']'
    ensures SpellsAt(s, p + 1, name) && SpellsAt(s, p + 2 + |name|, value)
  {
    var t := BracketText(name, value);
    BracketTextLayout(name, value);
    assert s[p + 0] == t[0];
    assert s[p + (1 + |name|)] == t[1 + |name|];
    assert s[p + (|t| - 1)] == t[|t| - 1];
    forall k | 0 <= k < |name| ensures s[p + 1 + k] == name[k] {
      assert s[p + (1 + k)] == t[1 + k];
    }
    forall k | 0 <= k < |value| ensures s[p + 2 + |name| + k] == value[k] {
      assert s[p + (2 + |name| + k)] == t[2 + |name| + k];
    }
  }

  /** What `t` spells at `i` is the slice there. */
  lemma SpelledSlice(s: string, i: nat, t: string)
    requires SpellsAt(s, i, t)
    ensures s[i..i + |t|] == t
  {
    var u := s[i..i + |t|];
    assert forall k :: 0 <= k < |t| ==> u[k] == s[i + k];
  }

  lemma BracketAtPieces(s: string, p: nat, name: string, value: string)
    requires WellFormedPair(name, value) && p + |name| + |value| + 3 <= |s|
    requires s[p] == '[' && s[p + 1 + |name|] == '=' && s[p + 2 + |name| + |value|] == ']'
    requires SpellsAt(s, p + 1, name) && SpellsAt(s, p + 2 + |name|, value)
    ensures BracketAt(s, p) == Some(BracketMatch(name, value, p + |name| + |value| + 3))
  {
    var q := p + 1 + |name|;
    var e := q + 1 + |value|;
    SpelledWordChars(s, p + 1, name);
    WordEndAt(s, p + 1, q);
    forall k | q + 1 <= k < e ensures !IsBracket(s[k]) {
      assert s[q + 1 + (k - q - 1)] == value[k - q - 1];
    }
    ValueEndAt(s, q + 1, e);
    SpelledSlice(s, p + 1, name);
    SpelledSlice(s, q + 1, value);
  }

  /** `re.exec(name)` with `re.lastIndex == from`: the leftmost match starting
      at or after `from`. */
  function NextBracket(s: string, from: nat): (r: Option<BracketMatch>)
    decreases |s| - from
    ensures r.Some? ==> from < r.value.end <= |s|
  {
    if from >= |s| then None
    else match BracketAt(s, from)
      case Some(m) => Some(m)
      case None => NextBracket(s, from + 1)
  }

  /** What the exec loop finds is the leftmost match at or after `from`. */
  lemma {:induction false} NextBracketFound(s: string, from: nat)
    requires NextBracket(s, from).Some?
    ensures exists p :: from <= p && BracketAt(s, p) == NextBracket(s, from)
                        && forall q :: from <= q < p ==> BracketAt(s, q).None?
    decreases |s| - from
  {
    if BracketAt(s, from).None? {
      NextBracketFound(s, from + 1);
      var p :| from + 1 <= p && BracketAt(s, p) == NextBracket(s, from + 1)
               && forall q :: from + 1 <= q < p ==> BracketAt(s, q).None?;
      assert forall q :: from <= q < p ==> BracketAt(s, q).None?;
    } else {
      assert BracketAt(s, from) == NextBracket(s, from);
    }
  }

  /** A match at or after `from` is never missed. */
  lemma {:induction false} NextBracketComplete(s: string, from: nat, p: nat)
    requires from <= p && BracketAt(s, p).Some?
    ensures NextBracket(s, from).Some?
    decreases p - from
  {
    if BracketAt(s, from).None? {
      NextBracketComplete(s, from + 1, p);
    }
  }

  /** All `(name, value)` pairs the exec loop visits from `lastIndex == from`. */
  function BracketPairsFrom(s: string, from: nat): seq<(string, string)>
    decreases |s| - from
  {
    match NextBracket(s, from)
    case None => []
    case Some(m) => [(m.name, m.value)] + BracketPairsFrom(s, m.end)
  }

  function BracketPairs(s: string): seq<(string, string)> {
    BracketPairsFrom(s, 0)
  }

  /** `t` occurs in `s` at position `p`. */
  predicate OccursAt(s: string, t: string, p: int) {
    0 <= p && p + |t| <= |s| && s[p..p + |t|] == t
  }

  /** The pair is well formed and its `[name=value]` text is in the descriptor. */
  ghost predicate PairInDescriptor(s: string, pair: (string, string)) {
    WellFormedPair(pair.0, pair.1) && exists p :: OccursAt(s, BracketText(pair.0, pair.1), p)
  }

  lemma MatchInDescriptor(s: string, p: nat)
    requires BracketAt(s, p).Some?
    ensures PairInDescriptor(s, (BracketAt(s, p).value.name, BracketAt(s, p).value.value))
  {
    var m := BracketAt(s, p).value;
    BracketAtSound(s, p);
    assert OccursAt(s, BracketText(m.name, m.value), p);
  }

  /** Only well-formed `[name=value]` texts of the descriptor become pairs. */
  lemma {:induction false} BracketPairsWellFormed(s: string, from: nat)
    ensures forall k :: 0 <= k < |BracketPairsFrom(s, from)| ==> PairInDescriptor(s, BracketPairsFrom(s, from)[k])
    decreases |s| - from
  {
    var r := NextBracket(s, from);
    if r.Some? {
      var m := r.value;
      NextBracketFound(s, from);
      var p :| from <= p && BracketAt(s, p) == r;
      MatchInDescriptor(s, p);
      BracketPairsWellFormed(s, m.end);
      var rest := BracketPairsFrom(s, m.end);
      var ps := BracketPairsFrom(s, from);
      assert ps == [(m.name, m.value)] + rest;
      forall k | 0 <= k < |ps| ensures PairInDescriptor(s, ps[k]) {
        if k > 0 {
          assert ps[k] == rest[k - 1];
        }
      }
    }
  }

  lemma {:induction false} NoBracketAtWithoutOpen(s: string, from: nat)
    requires '[' !in s
    ensures NextBracket(s, from) == None
    decreases |s| - from
  {
    if from < |s| {
      assert s[from] != '[';
      NoBracketAtWithoutOpen(s, from + 1);
    }
  }

  /** A descriptor without `[` yields no bracket attributes. */
  lemma NoOpenBracketNoPairs(s: string)
    requires '[' !in s
    ensures BracketPairs(s) == []
  {
    NoBracketAtWithoutOpen(s, 0);
  }

  lemma {:induction false} NoBracketAtWithoutEquals(s: string, from: nat)
    requires '=' !in s
    ensures NextBracket(s, from) == None
    decreases |s| - from
  {
    if from < |s| {
      var q := WordEnd(s, from + 1);
      if q < |s| { assert s[q] != '='; }
      NoBracketAtWithoutEquals(s, from + 1);
    }
  }

  /** A bracket needs `=value`: without any `=`, no bracket attribute
      is taken (a valueless `[flag]` is ignored). */
  lemma NoEqualsNoPairs(s: string)
    requires '=' !in s
    ensures BracketPairs(s) == []
  {
    NoBracketAtWithoutEquals(s, 0);
  }

  // --------------------------------------- every match is visited, in order

  /** Reference reading of the exec loop: every position of the descriptor
      that starts a match contributes that match's groups, in order. A match
      starts with `[`, so other positions are passed over without trying one. */
  function BracketRunsFrom(s: string, i: nat): seq<(string, string)>
    decreases |s| - i
  {
    if i >= |s| then []
    else if s[i] != '[' then BracketRunsFrom(s, i + 1)
    else (match BracketAt(s, i) case Some(m) => [(m.name, m.value)] case None => []) + BracketRunsFrom(s, i + 1)
  }

  /** Positions without `[` contribute nothing. */
  lemma {:induction false} RunsSkipNoOpen(s: string, i: nat, j: nat)
    requires i <= j <= |s|
    requires forall p :: i <= p < j ==> s[p] != '['
    ensures BracketRunsFrom(s, i) == BracketRunsFrom(s, j)
    decreases j - i
  {
    if i < j {
      assert BracketAt(s, i) == None;
      RunsSkipNoOpen(s, i + 1, j);
    }
  }

  /** No `[` lies strictly inside a match, so no match overlaps another. */
  lemma NoOpenInsideMatch(s: string, p: nat)
    requires BracketAt(s, p).Some?
    ensures forall k :: p < k < BracketAt(s, p).value.end ==> s[k] != '['
  {
    var q := WordEnd(s, p + 1);
    var e := ValueEnd(s, q + 1);
    WordEndSpec(s, p + 1);
    ValueEndSpec(s, q + 1);
    assert BracketAt(s, p).value.end == e + 1;
    forall k | p < k < e + 1 ensures s[k] != '[' {
      if k < q {
        assert IsWordChar(s[k]);
      } else if q < k < e {
        assert !IsBracket(s[k]);
      }
    }
  }

  /** The exec loop, which resumes after each match, visits exactly the
      matches at every position: skipping past a match loses none. */
  lemma {:induction false} BracketPairsAreRuns(s: string, i: nat)
    ensures BracketPairsFrom(s, i) == BracketRunsFrom(s, i)
    decreases |s| - i
  {
    if i >= |s| {
      assert NextBracket(s, i) == None;
    } else {
      match BracketAt(s, i)
      case Some(m) =>
        NextBracketHere(s, i);
        assert BracketPairsFrom(s, i) == [(m.name, m.value)] + BracketPairsFrom(s, m.end);
        BracketPairsAreRuns(s, m.end);
        NoOpenInsideMatch(s, i);
        RunsSkipNoOpen(s, i + 1, m.end);
        assert BracketRunsFrom(s, i) == [(m.name, m.value)] + BracketRunsFrom(s, i + 1);
      case None =>
        assert NextBracket(s, i) == NextBracket(s, i + 1);
        assert BracketRunsFrom(s, i) == BracketRunsFrom(s, i + 1);
        BracketPairsAreRuns(s, i + 1);
    }
  }

  /** The runs from `i` hold every pair of the runs from a later position. */
  lemma {:induction false} RunsContainLater(s: string, i: nat, p: nat, pair: (string, string))
    requires i <= p <= |s| && pair in BracketRunsFrom(s, p)
    ensures pair in BracketRunsFrom(s, i)
    decreases p - i
  {
    if i < p {
      RunsContainLater(s, i + 1, p, pair);
    }
  }

  /** Every `[name=value]` match of the descriptor reaches the attributes. */
  lemma EveryBracketVisited(s: string, p: nat)
    requires BracketAt(s, p).Some?
    ensures (BracketAt(s, p).value.name, BracketAt(s, p).value.value) in BracketPairs(s)
  {
    BracketPairsAreRuns(s, 0);
    RunsContainLater(s, 0, p, (BracketAt(s, p).value.name, BracketAt(s, p).value.value));
  }

  // ------------------------------------------------ descriptors from parts
  //
  // Composing a descriptor from its parts and reading it back gives the
  // parts again: the scanners above invert the composition.

  /** `.c1.c2…` */
  function ClassList(classes: seq<string>): string {
    if classes == [] then "" else "." + classes[0] + ClassList(classes[1..])
  }

  /** `[k1=v1][k2=v2]…` */
  function BracketList(pairs: seq<(string, string)>): string {
    if pairs == [] then "" else BracketText(pairs[0].0, pairs[0].1) + BracketList(pairs[1..])
  }

  /** `tag#id.c1.c2…[k1=v1]…`, leaving out `#id` when `id` is empty. */
  function Compose(tag: string, id: string, classes: seq<string>, pairs: seq<(string, string)>): string {
    tag + (if id == "" then "" else "#" + id) + ClassList(classes) + BracketList(pairs)
  }

  predicate ValidClasses(classes: seq<string>) {
    forall k :: 0 <= k < |classes| ==> classes[k] != "" && AllWordChars(classes[k])
  }

  /** Parts a descriptor can be composed of and read back from. Bracket
      values must hold no `.` and no `#`: the id and class scans run over
      the whole descriptor and would pick them up. */
  predicate ValidParts(tag: string, id: string, classes: seq<string>, pairs: seq<(string, string)>) {
    && AllWordChars(tag) && AllWordChars(id) && ValidClasses(classes)
    && forall k :: 0 <= k < |pairs| ==>
         WellFormedPair(pairs[k].0, pairs[k].1) && '.' !in pairs[k].1 && '#' !in pairs[k].1
  }

  /** A tail that cannot extend a word run and holds no `.` or `#`. */
  predicate InertTail(tail: string) {
    (tail != "" ==> !IsWordChar(tail[0])) && '.' !in tail && '#' !in tail
  }

  lemma {:induction false} SkipNoDots(s: string, i: nat, j: nat)
    requires i <= j <= |s|
    requires forall p :: i <= p < j ==> s[p] != '.'
    ensures ClassRunsFrom(s, i) == ClassRunsFrom(s, j)
    decreases j - i
  {
    if i < j {
      ClassRunsStep(s, i);
      SkipNoDots(s, i + 1, j);
    }
  }

  /** A `.run` at `i` contributes `run`, and the scan resumes after it. */
  lemma ClassRunAt(s: string, i: nat, run: string)
    requires i < |s| && s[i] == '.' && run != "" && AllWordChars(run) && SpellsAt(s, i + 1, run)
    requires i + 1 + |run| < |s| ==> !IsWordChar(s[i + 1 + |run|])
    ensures ClassRunsFrom(s, i) == [run] + ClassRunsFrom(s, i + 1 + |run|)
  {
    assert s[i + 1 + 0] == run[0];
    assert DotAt(s, i);
    WordRunFrom(s, i + 1, run);
    SpelledWordChars(s, i + 1, run);
    SkipWordChars(s, i + 1, i + 1 + |run|);
    assert ClassRunsFrom(s, i) == [WordRun(s[i + 1..])] + ClassRunsFrom(s, i + 1);
  }

  lemma {:induction false} ClassListShape(classes: seq<string>)
    requires ValidClasses(classes)
    ensures ClassList(classes) != "" ==> ClassList(classes)[0] == '.'
    ensures '#' !in ClassList(classes) && '[' !in ClassList(classes)
  {
    if classes != [] {
      ClassListShape(classes[1..]);
      var c := classes[0];
      var t := ClassList(classes);
      assert t == "." + c + ClassList(classes[1..]);
      forall p | 0 <= p < |t| ensures t[p] != '#' && t[p] != '[' {
        if 0 < p <= |c| { assert t[p] == c[p - 1]; }
        else if p > |c| { assert t[p] == ClassList(classes[1..])[p - 1 - |c|]; }
      }
    }
  }

  /** From `j` on nothing extends a word run and no `.` occurs. */
  predicate InertFrom(s: string, j: nat) {
    j <= |s| && (j < |s| ==> !IsWordChar(s[j])) && forall p :: j <= p < |s| ==> s[p] != '.'
  }

  /** A class list spelled at `i`, followed by an inert rest, is read back. */
  lemma {:induction false} ClassRunsAt(s: string, i: nat, classes: seq<string>)
    requires ValidClasses(classes) && SpellsAt(s, i, ClassList(classes))
    requires InertFrom(s, i + |ClassList(classes)|)
    ensures ClassRunsFrom(s, i) == classes
    decreases |classes|
  {
    if classes == [] {
      SkipNoDots(s, i, |s|);
    } else {
      var c := classes[0];
      var l := ClassList(classes);
      var r := ClassList(classes[1..]);
      assert l == "." + c + r;
      assert s[i + 0] == l[0];
      assert SpellsAt(s, i + 1, c) by {
        forall k | 0 <= k < |c| ensures s[i + 1 + k] == c[k] {
          assert s[i + (1 + k)] == l[1 + k];
        }
      }
      var e := i + 1 + |c|;
      assert SpellsAt(s, e, r) by {
        forall k | 0 <= k < |r| ensures s[e + k] == r[k] {
          assert s[i + (1 + |c| + k)] == l[1 + |c| + k];
        }
      }
      if e < |s| && r != "" {
        ClassListShape(classes[1..]);
        assert s[e + 0] == r[0];
      }
      assert ValidClasses(classes[1..]) by {
        assert forall k :: 0 <= k < |classes| - 1 ==> classes[1..][k] == classes[k + 1];
      }
      ClassRunAt(s, i, c);
      ClassRunsAt(s, e, classes[1..]);
      assert classes == [c] + classes[1..];
    }
  }

  lemma {:induction false} BracketListShape(pairs: seq<(string, string)>)
    requires forall k :: 0 <= k < |pairs| ==>
      WellFormedPair(pairs[k].0, pairs[k].1) && '.' !in pairs[k].1 && '#' !in pairs[k].1
    ensures InertTail(BracketList(pairs))
  {
    if pairs != [] {
      BracketListShape(pairs[1..]);
      var (name, value) := pairs[0];
      var t := BracketText(name, value);
      assert BracketList(pairs) == t + BracketList(pairs[1..]);
      forall p | 0 <= p < |t| ensures t[p] != '.' && t[p] != '#' {
        if 0 < p <= |name| { assert t[p] == name[p - 1]; }
        else if |name| + 1 < p < |t| - 1 { assert t[p] == value[p - |name| - 2]; }
      }
    }
  }

  lemma NextBracketStep(s: string, i: nat)
    requires i < |s| && s[i] != '['
    ensures NextBracket(s, i) == NextBracket(s, i + 1)
  {
    assert BracketAt(s, i) == None;
  }

  lemma {:induction false} SkipNoOpen(s: string, i: nat, j: nat)
    requires i <= j <= |s|
    requires forall p :: i <= p < j ==> s[p] != '['
    ensures NextBracket(s, i) == NextBracket(s, j)
    decreases j - i
  {
    if i < j {
      NextBracketStep(s, i);
      SkipNoOpen(s, i + 1, j);
    }
  }

  /** A match at `i` itself is the next match from `i`. */
  lemma NextBracketHere(s: string, i: nat)
    requires BracketAt(s, i).Some?
    ensures NextBracket(s, i) == BracketAt(s, i)
  {
  }

  /** The pairs after the first are well formed too. */
  lemma WellFormedRest(pairs: seq<(string, string)>)
    requires pairs != [] && forall k :: 0 <= k < |pairs| ==> WellFormedPair(pairs[k].0, pairs[k].1)
    ensures WellFormedPair(pairs[0].0, pairs[0].1)
    ensures forall k :: 0 <= k < |pairs| - 1 ==> WellFormedPair(pairs[1..][k].0, pairs[1..][k].1)
  {
    assert forall k :: 0 <= k < |pairs| - 1 ==> pairs[1..][k] == pairs[k + 1];
  }

  /** A spelled bracket list is its first `[name=value]`, then the rest. */
  lemma BracketListSplit(s: string, i: nat, pairs: seq<(string, string)>)
    requires pairs != [] && SpellsAt(s, i, BracketList(pairs))
    ensures var t := BracketText(pairs[0].0, pairs[0].1);
      && |BracketList(pairs)| == |t| + |BracketList(pairs[1..])|
      && SpellsAt(s, i, t) && SpellsAt(s, i + |t|, BracketList(pairs[1..]))
  {
    SpellsSplit(s, i, BracketText(pairs[0].0, pairs[0].1), BracketList(pairs[1..]));
  }

  /** Reading back the first pair, then the rest, reads back all pairs. */
  lemma BracketPairsCons(s: string, i: nat, j: nat, pairs: seq<(string, string)>)
    requires pairs != [] && NextBracket(s, i) == Some(BracketMatch(pairs[0].0, pairs[0].1, j))
    requires BracketPairsFrom(s, j) == pairs[1..]
    ensures BracketPairsFrom(s, i) == pairs
  {
    assert BracketPairsFrom(s, i) == [(pairs[0].0, pairs[0].1)] + BracketPairsFrom(s, j);
    assert (pairs[0].0, pairs[0].1) == pairs[0];
    assert [pairs[0]] + pairs[1..] == pairs;
  }

  /** A bracket list spelled at `i` up to the end is read back pair by pair. */
  lemma {:induction false} BracketPairsAt(s: string, i: nat, pairs: seq<(string, string)>)
    requires forall k :: 0 <= k < |pairs| ==> WellFormedPair(pairs[k].0, pairs[k].1)
    requires SpellsAt(s, i, BracketList(pairs)) && i + |BracketList(pairs)| == |s|
    ensures BracketPairsFrom(s, i) == pairs
    decreases |pairs|
  {
    if pairs == [] {
      assert NextBracket(s, i) == None;
    } else {
      var j := i + |BracketText(pairs[0].0, pairs[0].1)|;
      BracketListSplit(s, i, pairs);
      WellFormedRest(pairs);
      BracketAtSpelled(s, i, pairs[0].0, pairs[0].1);
      NextBracketHere(s, i);
      BracketPairsAt(s, j, pairs[1..]);
      BracketPairsCons(s, i, j, pairs);
    }
  }

  lemma TagBeforeTail(tag: string, h: string, cl: string, bl: string)
    requires AllWordChars(tag)
    requires h != "" ==> h[0] == '#'
    requires h == "" && cl != "" ==> cl[0] == '.'
    requires h == "" && cl == "" && bl != "" ==> !IsWordChar(bl[0])
    ensures TagName(tag + h + cl + bl) == if tag == "" then "div" else tag
  {
    var s := tag + h + cl + bl;
    var n := |tag|;
    if n < |s| {
      if h != "" { assert s[n] == h[0]; }
      else if cl != "" { assert s[n] == cl[0]; }
      else { assert s[n] == bl[0]; }
    }
    if tag == "" {
      assert WordRun(s) == "";
    } else {
      assert forall k :: 0 <= k < n ==> s[0 + k] == tag[k];
      WordRunFrom(s, 0, tag);
      assert s[0..] == s;
    }
  }

  lemma ComposeTag(tag: string, id: string, classes: seq<string>, pairs: seq<(string, string)>)
    requires ValidParts(tag, id, classes, pairs)
    ensures TagName(Compose(tag, id, classes, pairs)) == if tag == "" then "div" else tag
  {
    BracketListShape(pairs);
    ClassListShape(classes);
    TagBeforeTail(tag, if id == "" then "" else "#" + id, ClassList(classes), BracketList(pairs));
  }

  lemma NoHashNoId(s: string)
    requires '#' !in s
    ensures IdOf(s) == None
  {
    IdSkip(s, 0, |s|);
  }

  /** The id after the first `#`, when a word run follows it. */
  lemma FirstHashId(s: string, k: nat, id: string)
    requires k < |s| && s[k] == '#' && id != "" && AllWordChars(id)
    requires forall q :: 0 <= q < k ==> s[q] != '#'
    requires SpellsAt(s, k + 1, id)
    requires k + 1 + |id| < |s| ==> !IsWordChar(s[k + 1 + |id|])
    ensures IdOf(s) == Some(id)
  {
    IdSkip(s, 0, k);
    assert s[k + 1] == id[0];
    assert IdAt(s, k);
    WordRunFrom(s, k + 1, id);
  }

  lemma NoIdInTail(tag: string, cl: string, bl: string)
    requires AllWordChars(tag) && '#' !in cl && '#' !in bl
    ensures IdOf(tag + "" + cl + bl) == None
  {
    var s := tag + "" + cl + bl;
    forall p | 0 <= p < |s| ensures s[p] != '#' {
      if p < |tag| { assert s[p] == tag[p]; }
      else if p < |tag| + |cl| { assert s[p] == cl[p - |tag|]; }
      else { assert s[p] == bl[p - |tag| - |cl|]; }
    }
    NoHashNoId(s);
  }

  lemma IdBeforeTail(tag: string, id: string, cl: string, bl: string)
    requires AllWordChars(tag) && AllWordChars(id) && id != ""
    requires cl != "" ==> !IsWordChar(cl[0])
    requires cl == "" && bl != "" ==> !IsWordChar(bl[0])
    ensures IdOf(tag + ("#" + id) + cl + bl) == Some(id)
  {
    var s := tag + ("#" + id) + cl + bl;
    var t := |tag| + 1;
    forall q | 0 <= q < |tag| ensures s[q] != '#' {
      assert s[q] == tag[q];
    }
    assert forall k :: 0 <= k < |id| ==> s[t + k] == id[k];
    if t + |id| < |s| {
      if cl != "" { assert s[t + |id|] == cl[0]; }
      else { assert s[t + |id|] == bl[0]; }
    }
    FirstHashId(s, |tag|, id);
  }

  lemma ComposeId(tag: string, id: string, classes: seq<string>, pairs: seq<(string, string)>)
    requires ValidParts(tag, id, classes, pairs)
    ensures IdOf(Compose(tag, id, classes, pairs)) == if id == "" then None else Some(id)
  {
    BracketListShape(pairs);
    ClassListShape(classes);
    if id == "" {
      NoIdInTail(tag, ClassList(classes), BracketList(pairs));
    } else {
      IdBeforeTail(tag, id, ClassList(classes), BracketList(pairs));
    }
  }

  /** The part before the classes, `tag#id`, holds no `.`. */
  lemma HeadWithoutDots(tag: string, id: string)
    requires AllWordChars(tag) && AllWordChars(id)
    ensures '.' !in tag + (if id == "" then "" else "#" + id)
  {
    if id != "" {
      var head := tag + "#" + id;
      forall p | 0 <= p < |head| ensures head[p] != '.' {
        if p < |tag| { assert head[p] == tag[p]; }
        else if p > |tag| { assert head[p] == id[p - |tag| - 1]; }
      }
    } else {
      assert tag + "" == tag;
      assert forall p :: 0 <= p < |tag| ==> IsWordChar(tag[p]);
    }
  }

  /** Between a dot-free head and an inert tail, the class list is read back. */
  lemma ClassRunsAfterHead(head: string, classes: seq<string>, b: string)
    requires '.' !in head && ValidClasses(classes) && InertTail(b)
    ensures ClassRunsFrom(head + ClassList(classes) + b, 0) == classes
  {
    var l := ClassList(classes);
    var s := head + l + b;
    forall p | 0 <= p < |head| ensures s[p] != '.' {
      assert s[p] == head[p];
    }
    SkipNoDots(s, 0, |head|);
    assert SpellsAt(s, |head|, l) by {
      forall k | 0 <= k < |l| ensures s[|head| + k] == l[k] { }
    }
    assert InertFrom(s, |head| + |l|) by {
      forall p | |head| + |l| <= p < |s| ensures s[p] != '.' {
        assert s[p] == b[p - |head| - |l|];
      }
      if b != "" {
        assert s[|head| + |l|] == b[0];
      }
    }
    ClassRunsAt(s, |head|, classes);
  }

  lemma ComposeClassName(tag: string, id: string, classes: seq<string>, pairs: seq<(string, string)>)
    requires ValidParts(tag, id, classes, pairs)
    ensures ClassNameOf(Compose(tag, id, classes, pairs)) == if classes == [] then None else Some(JoinWith(classes, " "))
  {
    HeadWithoutDots(tag, id);
    BracketListShape(pairs);
    ClassRunsAfterHead(tag + (if id == "" then "" else "#" + id), classes, BracketList(pairs));
    ClassNameOfSpec(Compose(tag, id, classes, pairs));
  }

  /** Bracket values may hold `.` and `#` here: the bracket scan ignores them. */
  lemma ComposeBrackets(tag: string, id: string, classes: seq<string>, pairs: seq<(string, string)>)
    requires AllWordChars(tag) && AllWordChars(id) && ValidClasses(classes)
    requires forall k :: 0 <= k < |pairs| ==> WellFormedPair(pairs[k].0, pairs[k].1)
    ensures BracketPairs(Compose(tag, id, classes, pairs)) == pairs
  {
    var head := tag + (if id == "" then "" else "#" + id) + ClassList(classes);
    var s := Compose(tag, id, classes, pairs);
    assert s == head + BracketList(pairs);
    ClassListShape(classes);
    forall p | 0 <= p < |head| ensures s[p] != '[' {
      assert s[p] == head[p];
      var h0 := tag + (if id == "" then "" else "#" + id);
      if p < |tag| { assert head[p] == tag[p]; }
      else if p < |h0| {
        if p > |tag| { assert head[p] == h0[p] == id[p - |tag| - 1]; }
      }
      else { assert head[p] == ClassList(classes)[p - |h0|]; }
    }
    SkipNoOpen(s, 0, |head|);
    var b := BracketList(pairs);
    assert SpellsAt(s, |head|, b) by {
      forall k | 0 <= k < |b| ensures s[|head| + k] == b[k] { }
    }
    BracketPairsAt(s, |head|, pairs);
  }

  /** A descriptor composed from valid parts reads back as those parts. */
  lemma ParseCompose(tag: string, id: string, classes: seq<string>, pairs: seq<(string, string)>)
    requires ValidParts(tag, id, classes, pairs)
    ensures var s := Compose(tag, id, classes, pairs);
      && TagName(s) == (if tag == "" then "div" else tag)
      && IdOf(s) == (if id == "" then None else Some(id))
      && ClassNameOf(s) == (if classes == [] then None else Some(JoinWith(classes, " ")))
      && BracketPairs(s) == pairs
  {
    ComposeTag(tag, id, classes, pairs);
    ComposeId(tag, id, classes, pairs);
    ComposeClassName(tag, id, classes, pairs);
    ComposeBrackets(tag, id, classes, pairs);
  }
}
