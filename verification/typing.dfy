/** Key dispatch and per-character feedback shared by the play screen and the
    stand-alone typing component: both ignore the same fifteen keys, submit
    on Enter, erase on Backspace and append every other key name verbatim. */
module Typing {

  /** Modifier, lock and navigation keys that never touch the buffer. */
  const IgnoredKeys: seq<string> := [
    "Shift", "Control", "Alt", "Meta", "CapsLock", "Tab", "Escape",
    "ArrowLeft", "ArrowRight", "ArrowUp", "ArrowDown", "Home", "End",
    "PageUp", "PageDown"
  ]

  const Enter := "Enter"
  const Backspace := "Backspace"

  /** What a key press asks of the buffer. */
  datatype KeyAction = Ignored | Submit | Erase | Append(text: string)

  /** The dispatch of a key name, in the order the handlers test it. */
  function Dispatch(key: string): (a: KeyAction)
    ensures a == Ignored <==> key in IgnoredKeys
    ensures a == Submit <==> key == Enter
    ensures a == Erase <==> key == Backspace
    ensures a.Append? <==> key !in IgnoredKeys && key != Enter && key != Backspace
    ensures a.Append? ==> a.text == key
  {
    if key in IgnoredKeys then Ignored
    else if key == Enter then Submit
    else if key == Backspace then Erase
    else Append(key)
  }

  /** Every ignored key, Enter and Backspace is a name of three or more
      characters, so a single typed character is always appended. */
  lemma SingleCharacterAppends(c: char)
    ensures Dispatch([c]) == Append([c])
    ensures [c] != Enter && [c] != Backspace && [c] !in IgnoredKeys
  {
    assert forall k :: k in IgnoredKeys ==> |k| >= 3;
  }

  /** `s.slice(0, -1)`: all but the last character; the empty string stays
      empty. */
  function DropLast(s: string): (r: string)
    ensures |s| == 0 ==> r == s
    ensures |s| > 0 ==> r + [s[|s| - 1]] == s
  {
    if |s| == 0 then s else s[..|s| - 1]
  }

  /** Backspace undoes the typing of one character. */
  lemma DropLastUndoesAppend(s: string, c: char)
    ensures DropLast(s + [c]) == s
  {
    assert (s + [c])[..|s|] == s;
  }

  /** The buffer after a key that is not Enter. Enter leaves the buffer to
      the caller, which clears it only on a completed word. */
  function Edit(buffer: string, key: string): (r: string)
    requires key != Enter
    ensures key in IgnoredKeys ==> r == buffer
    ensures key == Backspace ==> |r| == if buffer == [] then 0 else |buffer| - 1
    ensures key == Backspace ==> r == buffer[..|r|]
    ensures key !in IgnoredKeys && key != Backspace ==> r == buffer + key
  {
    match Dispatch(key)
    case Erase => DropLast(buffer)
    case Append(k) => buffer + k
    case _ => buffer
  }

  /** Typing one character appends exactly that character. */
  lemma EditChar(buffer: string, c: char)
    ensures [c] != Enter
    ensures Edit(buffer, [c]) == buffer + [c]
  {
    SingleCharacterAppends(c);
  }

  /** Display state of one character of the target word. */
  datatype Tag = Unset | Correct | Incorrect

  /** One tag per character of `target`: unset past the end of the buffer,
      otherwise correct or incorrect by comparing with the typed character
      at the same index. */
  function Classify(target: string, typed: string): (tags: seq<Tag>)
    ensures |tags| == |target|
    ensures forall i :: 0 <= i < |target| ==> (tags[i] == Unset <==> i >= |typed|)
    ensures forall i :: 0 <= i < |target| ==>
      (tags[i] == Correct <==> i < |typed| && typed[i] == target[i])
  {
    seq(|target|, i requires 0 <= i < |target| =>
      if i >= |typed| then Unset else if typed[i] == target[i] then Correct else Incorrect)
  }

  predicate AllCorrect(tags: seq<Tag>) {
    forall i :: 0 <= i < |tags| ==> tags[i] == Correct
  }

  /** The feedback is all green exactly when the target is a prefix of the
      buffer; in particular a buffer equal to the target shows every
      character correct, and so does an overshooting one. */
  lemma AllCorrectIffPrefix(target: string, typed: string)
    ensures AllCorrect(Classify(target, typed)) <==> target <= typed
  {
    var tags := Classify(target, typed);
    if AllCorrect(tags) {
      if |target| > 0 {
        assert tags[|target| - 1] == Correct;
      }
      assert target == typed[..|target|];
    }
  }
}
