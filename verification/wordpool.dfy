/** The word pool: parsing the word file into words, and drawing a word that
    has not been used in the current cycle. */
module WordPool {
  import opened RealFacts

  const Newline: char := '\n'

  /** The characters `String.prototype.trim` removes: ECMAScript white space
      (tab, vertical tab, form feed, space, no-break space, byte order mark
      and the space separators of Unicode category Zs) and line terminators. */
  predicate IsSpace(c: char) {
    || c == '\t' || c == '\U{000B}' || c == '\U{000C}' || c == ' '
    || c == '\U{00A0}' || c == '\U{FEFF}' || c == '\U{1680}'
    || ('\U{2000}' <= c <= '\U{200A}')
    || c == '\U{202F}' || c == '\U{205F}' || c == '\U{3000}'
    || c == '\n' || c == '\r' || c == '\U{2028}' || c == '\U{2029}'
  }

  predicate AllSpace(s: string) {
    forall k :: 0 <= k < |s| ==> IsSpace(s[k])
  }

  /** Lines joined back with newlines: the inverse of `Split`. */
  function Join(lines: seq<string>): string
    requires |lines| > 0
  {
    if |lines| == 1 then lines[0] else lines[0] + [Newline] + Join(lines[1..])
  }

  /** `text.split('\n')`: the maximal newline-free pieces between newlines;
      there is always at least one piece (`''.split('\n')` is `['']`). */
  function Split(text: string): (lines: seq<string>)
    ensures |lines| > 0
    ensures forall i :: 0 <= i < |lines| ==> Newline !in lines[i]
    ensures Join(lines) == text
  {
    if text == [] then [""]
    else if text[0] == Newline then
      var rest := Split(text[1..]);
      assert text == [Newline] + text[1..];
      [""] + rest
    else
      var rest := Split(text[1..]);
      assert Join(rest) == text[1..];
      var lines := [[text[0]] + rest[0]] + rest[1..];
      assert lines[1..] == rest[1..];
      assert text == [text[0]] + text[1..];
      lines
  }

  lemma {:induction false} JoinAppend(p: seq<string>, q: seq<string>)
    requires |p| > 0 && |q| > 0
    ensures Join(p + q) == Join(p) + [Newline] + Join(q)
    decreases |p|
  {
    if |p| == 1 {
      assert (p + q)[1..] == q;
    } else {
      assert (p + q)[1..] == p[1..] + q;
      JoinAppend(p[1..], q);
    }
  }

  /** Splitting undoes joining whenever no line holds a newline. */
  lemma {:induction false} SplitJoin(lines: seq<string>)
    requires |lines| > 0
    requires forall i :: 0 <= i < |lines| ==> Newline !in lines[i]
    ensures Split(Join(lines)) == lines
    decreases |lines|, |lines[0]|
  {
    var l := lines[0];
    if |lines| == 1 {
      SplitLine(l);
    } else if l == [] {
      assert Join(lines) == [Newline] + Join(lines[1..]);
      assert Join(lines)[1..] == Join(lines[1..]);
      SplitJoin(lines[1..]);
      assert lines == [""] + lines[1..];
    } else {
      var shorter := [l[1..]] + lines[1..];
      assert shorter[1..] == lines[1..];
      assert Join(lines) == [l[0]] + Join(shorter);
      assert Join(lines)[1..] == Join(shorter);
      assert l[0] != Newline by { assert l[0] in l; }
      SplitJoin(shorter);
      assert l == [l[0]] + l[1..];
    }
  }

  lemma {:induction false} SplitLine(l: string)
    requires Newline !in l
    ensures Split(l) == [l]
    decreases |l|
  {
    if l != [] {
      assert l[0] in l;
      assert Newline !in l[1..] by {
        forall c | c in l[1..] ensures c != Newline { assert c in l; }
      }
      SplitLine(l[1..]);
      assert l == [l[0]] + l[1..];
    }
  }

  /** Leading white space removed. */
  function TrimStart(s: string): (r: string)
    ensures |r| <= |s|
  {
    if s != [] && IsSpace(s[0]) then TrimStart(s[1..]) else s
  }

  /** `TrimStart` keeps a suffix of `s`, cuts only white space, and leaves no
      white space at the front. */
  lemma {:induction false} TrimStartSpec(s: string)
    ensures var r := TrimStart(s);
      && r == s[|s| - |r|..]
      && AllSpace(s[..|s| - |r|])
      && (r == [] || !IsSpace(r[0]))
    decreases |s|
  {
    if s != [] && IsSpace(s[0]) {
      var tail := s[1..];
      TrimStartSpec(tail);
      var r := TrimStart(tail);
      assert TrimStart(s) == r;
      var cut := |s| - |r|;
      assert tail[|tail| - |r|..] == s[cut..];
      assert s[..cut] == [s[0]] + tail[..|tail| - |r|];
    } else {
      assert s[..0] == [];
    }
  }

  /** Trailing white space removed. */
  function TrimEnd(s: string): (r: string)
    ensures |r| <= |s|
  {
    if s != [] && IsSpace(s[|s| - 1]) then TrimEnd(s[..|s| - 1]) else s
  }

  /** `TrimEnd` keeps a prefix of `s`, cuts only white space, and leaves no
      white space at the back. */
  lemma {:induction false} TrimEndSpec(s: string)
    ensures var r := TrimEnd(s);
      && r == s[..|r|]
      && AllSpace(s[|r|..])
      && (r == [] || !IsSpace(r[|r| - 1]))
    decreases |s|
  {
    if s != [] && IsSpace(s[|s| - 1]) {
      var init := s[..|s| - 1];
      TrimEndSpec(init);
      var r := TrimEnd(init);
      assert TrimEnd(s) == r;
      assert init[..|r|] == s[..|r|];
      assert s[|r|..] == init[|r|..] + [s[|s| - 1]];
    } else {
      assert s[|s|..] == [];
    }
  }

  /** Where the trimmed string starts inside the original. */
  function TrimOffset(s: string): (i: nat)
    ensures i <= |s|
  {
    |s| - |TrimStart(s)|
  }

  /** `String.prototype.trim`: the slice left after cutting the white space
      at both ends, with no white space at either end. */
  function Trim(s: string): (r: string)
    ensures var i := TrimOffset(s);
      && i + |r| <= |s|
      && r == s[i..i + |r|]
      && AllSpace(s[..i]) && AllSpace(s[i + |r|..])
      && (r == [] || (!IsSpace(r[0]) && !IsSpace(r[|r| - 1])))
  {
    var t := TrimStart(s);
    TrimStartSpec(s);
    TrimEndSpec(t);
    var r := TrimEnd(t);
    var i := TrimOffset(s);
    assert t == s[i..];
    assert r == t[..|r|];
    assert t[..|r|] == s[i..i + |r|];
    assert s[i + |r|..] == t[|r|..];
    assert r != [] ==> r[0] == t[0];
    r
  }

  /** A slice of a newline-free string is newline-free. */
  lemma SliceHasNoNewline(s: string, i: nat, j: nat)
    requires i <= j <= |s| && Newline !in s
    ensures Newline !in s[i..j]
  {
    forall k | i <= k < j ensures s[k] != Newline {
      assert s[k] in s;
    }
    assert forall k :: 0 <= k < j - i ==> s[i..j][k] == s[i + k];
  }

  /** A string with no white space at either end is its own trim. */
  lemma TrimmedIsFixed(s: string)
    requires s == [] || (!IsSpace(s[0]) && !IsSpace(s[|s| - 1]))
    ensures Trim(s) == s
  {
    assert TrimStart(s) == s;
  }

  /** Trimming is idempotent. */
  lemma TrimIdempotent(s: string)
    ensures Trim(Trim(s)) == Trim(s)
  {
    TrimmedIsFixed(Trim(s));
  }

  /** A word as the loader produces it: non-empty, on one line, with no
      white space at either end (so its own trim, by `TrimmedIsFixed`). */
  predicate Clean(w: string) {
    w != [] && !IsSpace(w[0]) && !IsSpace(w[|w| - 1]) && Newline !in w
  }

  /** A line after trimming: blank, or a clean word. */
  predicate TrimmedLine(w: string) {
    w == [] || Clean(w)
  }

  /** A newline-free line trims to a blank or a clean word. */
  lemma TrimLineTrimmed(line: string)
    requires Newline !in line
    ensures TrimmedLine(Trim(line))
  {
    SliceHasNoNewline(line, TrimOffset(line), TrimOffset(line) + |Trim(line)|);
  }

  /** `lines.map(trim)`. */
  function TrimLines(lines: seq<string>): (trimmed: seq<string>)
    ensures |trimmed| == |lines|
    ensures forall i :: 0 <= i < |lines| ==> trimmed[i] == Trim(lines[i])
  {
    if lines == [] then []
    else
      var rest := TrimLines(lines[1..]);
      assert forall i :: 1 <= i < |lines| ==> lines[i] == lines[1..][i - 1];
      [Trim(lines[0])] + rest
  }

  /** Trimming newline-free lines leaves blanks and clean words only. */
  lemma TrimLinesTrimmed(lines: seq<string>)
    requires forall i :: 0 <= i < |lines| ==> Newline !in lines[i]
    ensures forall i :: 0 <= i < |lines| ==> TrimmedLine(TrimLines(lines)[i])
  {
    forall i | 0 <= i < |lines| ensures TrimmedLine(TrimLines(lines)[i]) {
      TrimLineTrimmed(lines[i]);
    }
  }

  /** `.filter(word => word.length > 0)`: blank lines dropped, order kept. */
  function DropBlank(lines: seq<string>): (words: seq<string>)
    ensures |words| <= |lines|
    ensures forall w :: w in words <==> w in lines && w != []
    ensures multiset(words) == multiset(lines)[[] := 0]
  {
    if lines == [] then []
    else
      var rest := DropBlank(lines[1..]);
      assert lines == [lines[0]] + lines[1..];
      assert multiset(lines) == multiset{lines[0]} + multiset(lines[1..]);
      (if lines[0] != [] then [lines[0]] else []) + rest
  }

  /** Dropping blanks from trimmed lines leaves clean words only. */
  lemma DropBlankClean(lines: seq<string>)
    requires forall i :: 0 <= i < |lines| ==> TrimmedLine(lines[i])
    ensures forall i :: 0 <= i < |DropBlank(lines)| ==> Clean(DropBlank(lines)[i])
  {
    var words := DropBlank(lines);
    forall i | 0 <= i < |words| ensures Clean(words[i]) {
      assert words[i] in lines;
    }
  }

  /** The word list of the game: `text.split('\n').map(trim).filter(nonEmpty)`. */
  function ParseWords(text: string): (words: seq<string>)
    ensures forall i :: 0 <= i < |words| ==> Clean(words[i])
  {
    var trimmed := TrimLines(Split(text));
    TrimLinesTrimmed(Split(text));
    DropBlankClean(trimmed);
    DropBlank(trimmed)
  }

  lemma {:induction false} TrimLinesAppend(p: seq<string>, q: seq<string>)
    ensures TrimLines(p + q) == TrimLines(p) + TrimLines(q)
    decreases |p|
  {
    if p == [] {
      assert p + q == q;
    } else {
      assert (p + q)[0] == p[0];
      assert (p + q)[1..] == p[1..] + q;
      TrimLinesAppend(p[1..], q);
    }
  }

  lemma {:induction false} DropBlankAppend(p: seq<string>, q: seq<string>)
    ensures DropBlank(p + q) == DropBlank(p) + DropBlank(q)
    decreases |p|
  {
    if p == [] {
      assert p + q == q;
    } else {
      assert (p + q)[0] == p[0];
      assert (p + q)[1..] == p[1..] + q;
      DropBlankAppend(p[1..], q);
    }
  }

  /** Each line is parsed on its own: parsing two texts joined by a newline
      gives the words of the first followed by the words of the second. */
  lemma ParseWordsConcat(a: string, b: string)
    ensures ParseWords(a + [Newline] + b) == ParseWords(a) + ParseWords(b)
  {
    var p, q := Split(a), Split(b);
    JoinAppend(p, q);
    SplitJoin(p + q);
    TrimLinesAppend(p, q);
    DropBlankAppend(TrimLines(p), TrimLines(q));
  }

  /** A single line loads as its trim, or as nothing when it is blank;
      with `ParseWordsConcat` this fixes the word list of every text. */
  lemma ParseWordsLine(line: string)
    requires Newline !in line
    ensures ParseWords(line) == if Trim(line) == [] then [] else [Trim(line)]
  {
    SplitLine(line);
    assert TrimLines([line]) == [Trim(line)];
    assert DropBlank([Trim(line)]) == (if Trim(line) != [] then [Trim(line)] else []) + DropBlank([]);
  }

  /** Writing a list of clean words one per line and loading the file gives
      the list back, in order. */
  lemma {:induction false} ParseWordsOfJoin(words: seq<string>)
    requires |words| > 0
    requires forall i :: 0 <= i < |words| ==> Clean(words[i])
    ensures ParseWords(Join(words)) == words
    decreases |words|
  {
    var w := words[0];
    assert Clean(w);
    SplitLine(w);
    assert ParseWords(w) == [w] by {
      TrimmedIsFixed(w);
      assert TrimLines([w]) == [w];
      assert DropBlank([w]) == [w] + DropBlank([]);
    }
    if |words| > 1 {
      var rest := words[1..];
      assert forall i :: 0 <= i < |rest| ==> Clean(rest[i]);
      ParseWordsOfJoin(rest);
      assert Join(words) == w + [Newline] + Join(rest);
      ParseWordsConcat(w, Join(rest));
      assert words == [w] + rest;
    }
  }

  /** No word occurs twice. */
  predicate NoDup(s: seq<string>) {
    forall i, j :: 0 <= i < j < |s| ==> s[i] != s[j]
  }

  /** The words of the list not yet used in this cycle, in list order
      (`words.filter(w => !usedWords.includes(w))`). */
  function Available(words: seq<string>, used: seq<string>): (avail: seq<string>)
    ensures forall w :: w in avail <==> w in words && w !in used
    ensures |avail| <= |words|
  {
    if words == [] then []
    else (if words[0] !in used then [words[0]] else []) + Available(words[1..], used)
  }

  /** `Math.floor(roll * n)` for a roll of `Math.random()`: an index below `n`. */
  function RollIndex(roll: real, n: nat): (i: nat)
    requires 0.0 <= roll < 1.0 && n > 0
    ensures i < n
  {
    var v := roll * n as real;
    assert v >= 0.0 && v < n as real by {
      MulNonNeg(roll, n as real);
      MulPos(1.0 - roll, n as real);
      assert n as real - v == (1.0 - roll) * n as real;
    }
    v.Floor
  }

  /** Outcome of the word draw of a spawn tick: a word and the new used list,
      or no word available, in which case the tick fails before creating an
      asteroid (reading the length of an undefined word) and only the reset of
      the used list, already queued, takes effect. */
  datatype Draw = Drawn(word: string, used: seq<string>) | Exhausted(used: seq<string>)

  /** The used list a spawn tick starts from: emptied when it is as long as
      the word list. */
  function CycleBase(words: seq<string>, used: seq<string>): seq<string> {
    if |used| == |words| then [] else used
  }

  /** The word draw of a spawn tick: a word is picked uniformly (by `roll`)
      from the words not in the used list, and appended to the used list
      after the reset. */
  function DrawWord(words: seq<string>, used: seq<string>, roll: real): (d: Draw)
    requires 0.0 <= roll < 1.0
    ensures d.Drawn? ==> d.word in words && d.word !in used
    ensures d.Drawn? ==> d.used == CycleBase(words, used) + [d.word]
    ensures d.Exhausted? <==> forall w :: w in words ==> w in used
    ensures d.Exhausted? ==> d.used == CycleBase(words, used)
  {
    var avail := Available(words, used);
    if avail == [] then
      assert forall w :: w in words ==> w in used;
      Exhausted(CycleBase(words, used))
    else
      var w := avail[RollIndex(roll, |avail|)];
      assert w in avail;
      Drawn(w, CycleBase(words, used) + [w])
  }

  /** The pool invariant: the used list holds distinct words of the list. */
  predicate PoolInv(words: seq<string>, used: seq<string>) {
    NoDup(used) && forall w :: w in used ==> w in words
  }

  /** Every draw keeps the pool invariant: within a cycle no word is drawn
      twice, whatever the word list holds. */
  lemma DrawKeepsPoolInv(words: seq<string>, used: seq<string>, roll: real)
    requires 0.0 <= roll < 1.0
    requires PoolInv(words, used)
    ensures PoolInv(words, DrawWord(words, used, roll).used)
  {
  }

  /** The set of elements of a list without duplicates is as large as the list. */
  lemma {:induction false} DistinctCard(s: seq<string>)
    requires NoDup(s)
    ensures |(set x | x in s)| == |s|
    decreases |s|
  {
    if s != [] {
      var init := s[..|s| - 1];
      var last := s[|s| - 1];
      assert NoDup(init);
      DistinctCard(init);
      assert (set x | x in s) == (set x | x in init) + {last} by {
        assert s == init + [last];
      }
      assert forall k :: 0 <= k < |init| ==> init[k] != last by {
        assert forall k :: 0 <= k < |init| ==> init[k] == s[k];
      }
      assert last !in (set x | x in init);
    }
  }

  /** The cycle-reset rule, for a word list without duplicates: no word is
      available exactly when the used list is as long as the word list, and
      then that tick only empties the used list, so the next cycle starts
      afresh. */
  lemma CycleReset(words: seq<string>, used: seq<string>, roll: real)
    requires 0.0 <= roll < 1.0
    requires NoDup(words) && PoolInv(words, used)
    ensures DrawWord(words, used, roll).Exhausted? <==> |used| == |words|
    ensures DrawWord(words, used, roll).Exhausted? ==> DrawWord(words, used, roll).used == []
    ensures DrawWord(words, used, roll).Drawn? ==> DrawWord(words, used, roll).used == used + [DrawWord(words, used, roll).word]
  {
    var U := set x | x in used;
    var W := set x | x in words;
    DistinctCard(used);
    DistinctCard(words);
    assert U <= W;
    if forall w :: w in words ==> w in used {
      assert W <= U;
      assert U == W;
    } else {
      var w :| w in words && w !in used;
      assert w in W - U;
      var D := W - U;
      assert W == U + D && U !! D;
      assert |W| == |U| + |D|;
      assert w in D;
    }
  }

  /** A list has at least as many entries as distinct elements. */
  lemma {:induction false} CardAtMostLength(s: seq<string>)
    ensures |(set x | x in s)| <= |s|
    decreases |s|
  {
    if s != [] {
      var init := s[..|s| - 1];
      CardAtMostLength(init);
      assert (set x | x in s) == (set x | x in init) + {s[|s| - 1]} by {
        assert s == init + [s[|s| - 1]];
      }
    }
  }

  /** A list with a repeated word has fewer distinct words than entries. */
  lemma {:induction false} RepeatCard(s: seq<string>)
    requires !NoDup(s)
    ensures |(set x | x in s)| < |s|
    decreases |s|
  {
    var init := s[..|s| - 1];
    var last := s[|s| - 1];
    assert s == init + [last];
    assert (set x | x in s) == (set x | x in init) + {last};
    if NoDup(init) {
      var i, j :| 0 <= i < j < |s| && s[i] == s[j];
      assert forall k :: 0 <= k < |init| ==> init[k] == s[k];
      assert j == |s| - 1;
      assert last in (set x | x in init) by { assert init[i] == last; }
      CardAtMostLength(init);
    } else {
      RepeatCard(init);
    }
  }

  /** With a repeated word in the list the length-based reset never fires:
      the used list, being distinct, is always shorter than the list. Once
      every word has been used, each spawn tick finds no word and leaves the
      used list as it was. */
  lemma RepeatNeverResets(words: seq<string>, used: seq<string>, roll: real)
    requires 0.0 <= roll < 1.0
    requires !NoDup(words) && PoolInv(words, used)
    ensures CycleBase(words, used) == used
    ensures (forall w :: w in words ==> w in used) ==> DrawWord(words, used, roll) == Exhausted(used)
  {
    var U := set x | x in used;
    var W := set x | x in words;
    DistinctCard(used);
    RepeatCard(words);
    assert W == U + (W - U) && U !! (W - U);
    assert |U| <= |W|;
  }

  /** With a repeated word the rule never resets: for the list `a, a` after
      `a` was drawn once, no word is available, the used list keeps its one
      entry (one is not two), and every later spawn tick fails the same way. */
  lemma DuplicateWordStalls(roll: real)
    requires 0.0 <= roll < 1.0
    ensures DrawWord(["a", "a"], ["a"], roll) == Exhausted(["a"])
  {
  }
}
