/** The stand-alone typing component: a buffer for one active line, cleared
    whenever the line changes, that reports completion on an exact match. */
module InputLogic {
  import opened Typing

  /** The component's state: the line it was given, the typed buffer and
      whether the cursor shows. */
  datatype Input = Input(activeLine: string, typed: string, cursorVisible: bool)

  /** The state right after mounting with a line: the line effect has run
      once, so the buffer is empty and the cursor shows for a non-empty line. */
  function Mount(line: string): (s: Input)
    ensures s.activeLine == line && s.typed == ""
    ensures s.cursorVisible <==> line != ""
  {
    Input(line, "", line != "")
  }

  /** A new `activeLine` from the parent: a different line clears the buffer
      and shows the cursor exactly when the line is non-empty; the same line
      changes nothing. */
  function SetActiveLine(s: Input, line: string): (r: Input)
    ensures line != s.activeLine ==> r == Mount(line)
    ensures line == s.activeLine ==> r == s
  {
    if line == s.activeLine then s else Input(line, "", line != "")
  }

  /** The state after a key press and whether `onComplete` was called. */
  datatype Press = Press(state: Input, completed: bool)

  /** The key handler: `onComplete` is called exactly on Enter with the buffer
      equal to the line, and the buffer is then cleared; every other key
      edits the buffer as the shared dispatch says; the line and the cursor
      are never touched. */
  function HandleKeyPress(s: Input, key: string): (p: Press)
    ensures p.completed <==> key == Enter && s.typed == s.activeLine
    ensures p.completed ==> p.state == s.(typed := "")
    ensures key == Enter && !p.completed ==> p.state == s
    ensures key in IgnoredKeys ==> p.state == s
    ensures key == Backspace ==> p.state == s.(typed := DropLast(s.typed))
    ensures key !in IgnoredKeys && key != Enter && key != Backspace ==>
      p.state == s.(typed := s.typed + key) && |p.state.typed| == |s.typed| + |key|
  {
    if key == Enter then
      if s.typed == s.activeLine then Press(s.(typed := ""), true) else Press(s, false)
    else Press(s.(typed := Edit(s.typed, key)), false)
  }

  /** The per-character feedback drawn for the active line. */
  function Render(s: Input): (tags: seq<Tag>)
    ensures |tags| == |s.activeLine|
    ensures s.typed == s.activeLine ==> AllCorrect(tags)
    ensures s.typed == "" ==> forall i :: 0 <= i < |tags| ==> tags[i] == Unset
    ensures tags == Classify(s.activeLine, s.typed)
  {
    AllCorrectIffPrefix(s.activeLine, s.typed);
    Classify(s.activeLine, s.typed)
  }

  /** A new line always starts with blank feedback, whatever was typed. */
  lemma NewLineShowsBlank(s: Input, line: string)
    requires line != s.activeLine
    ensures forall i :: 0 <= i < |line| ==> Render(SetActiveLine(s, line))[i] == Unset
  {
  }

  /** A sequence of key presses: the final state and how many times
      `onComplete` was called. */
  function Presses(s: Input, keys: seq<string>): (r: (Input, nat))
    ensures r.0.activeLine == s.activeLine && r.0.cursorVisible == s.cursorVisible
    ensures r.1 <= |keys|
    decreases |keys|
  {
    if keys == [] then (s, 0)
    else
      var p := HandleKeyPress(s, keys[0]);
      var rest := Presses(p.state, keys[1..]);
      (rest.0, rest.1 + if p.completed then 1 else 0)
  }

  /** Key names that type `chars` one character at a time. */
  function CharKeys(chars: string): (keys: seq<string>)
    ensures |keys| == |chars|
    ensures forall i :: 0 <= i < |chars| ==> keys[i] == [chars[i]]
  {
    seq(|chars|, i requires 0 <= i < |chars| => [chars[i]])
  }

  lemma {:induction false} TypingNeverCompletes(s: Input, chars: string)
    ensures Presses(s, CharKeys(chars)) == (s.(typed := s.typed + chars), 0)
    decreases |chars|
  {
    if chars == [] {
      assert s.typed + chars == s.typed;
    } else {
      var keys := CharKeys(chars);
      assert keys[1..] == CharKeys(chars[1..]) by {
        assert forall i :: 0 <= i < |chars| - 1 ==> keys[1..][i] == CharKeys(chars[1..])[i];
      }
      EditChar(s.typed, chars[0]);
      var s1 := s.(typed := s.typed + [chars[0]]);
      assert HandleKeyPress(s, [chars[0]]) == Press(s1, false);
      TypingNeverCompletes(s1, chars[1..]);
      assert s.typed + chars == (s.typed + [chars[0]]) + chars[1..];
    }
  }

  lemma {:induction false} PressesAppend(s: Input, a: seq<string>, b: seq<string>)
    ensures var ra := Presses(s, a); var rb := Presses(ra.0, b);
      Presses(s, a + b) == (rb.0, ra.1 + rb.1)
    decreases |a|
  {
    if a == [] {
      assert a + b == b;
    } else {
      assert (a + b)[1..] == a[1..] + b;
      PressesAppend(HandleKeyPress(s, a[0]).state, a[1..], b);
    }
  }

  /** Typing characters into an empty buffer and pressing Enter calls
      `onComplete` once and leaves the buffer empty exactly when the
      characters spell the line; otherwise it is never called and the
      characters stay in the buffer. */
  lemma TypeLineThenEnter(s: Input, chars: string)
    requires s.typed == ""
    ensures var r := Presses(s, CharKeys(chars) + [Enter]);
      && (chars == s.activeLine ==> r.1 == 1 && r.0.typed == "")
      && (chars != s.activeLine ==> r.1 == 0 && r.0.typed == chars)
  {
    PressesAppend(s, CharKeys(chars), [Enter]);
    TypingNeverCompletes(s, chars);
    assert s.typed + chars == chars;
  }
}
