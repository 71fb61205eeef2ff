/** The line editor of the shell as a function of the characters typed. */
module Editing {
  const LINE_ROOM: nat := 127
  const BACKSPACE: char := '\U{0008}'

  predicate Printable(c: char) { ' ' <= c <= '~' }

  /** The line so far, and the lines executed. */
  datatype Editor = Editor(text: string, executed: seq<string>)

  /** `shell_input_char` */
  function Typed(e: Editor, c: char): Editor {
    if c == BACKSPACE then (if |e.text| > 0 then e.(text := e.text[..|e.text| - 1]) else e)
    else if c == '\n' then Editor("", e.executed + [e.text])
    else if Printable(c) && |e.text| < LINE_ROOM then e.(text := e.text + [c])
    else e
  }

  function TypedAll(e: Editor, cs: string): Editor
    decreases |cs|
  {
    if cs == [] then e else TypedAll(Typed(e, cs[0]), cs[1..])
  }

  lemma {:induction false} TypedAppend(e: Editor, cs: string, c: char)
    ensures TypedAll(e, cs + [c]) == Typed(TypedAll(e, cs), c)
    decreases |cs|
  {
    if cs == [] {
      assert (cs + [c])[1..] == [];
    } else {
      TypedAppend(Typed(e, cs[0]), cs[1..], c);
      assert (cs + [c])[1..] == cs[1..] + [c];
    }
  }

  // ---- the reference: cut the input at newlines, edit each piece by itself ----

  /** One line's worth of typing, edited: control characters do nothing, a
      backspace takes back the last character kept, the 128th is refused. */
  function Edited(s: string): (t: string)
    ensures |t| <= LINE_ROOM && |t| <= |s|
    ensures forall c | c in t :: Printable(c)
  {
    if s == [] then []
    else
      var t, c := Edited(s[..|s| - 1]), s[|s| - 1];
      if c == BACKSPACE then (if t == [] then [] else t[..|t| - 1])
      else if Printable(c) && |t| < LINE_ROOM then t + [c]
      else t
  }

  /** What follows the last newline. */
  function Unfinished(s: string): (u: string)
    ensures |u| <= |s| && s[|s| - |u|..] == u
  {
    if s == [] || s[|s| - 1] == '\n' then [] else Unfinished(s[..|s| - 1]) + [s[|s| - 1]]
  }

  /** What stands between newlines, and before the first. */
  function Finished(s: string): seq<string> {
    if s == [] then []
    else if s[|s| - 1] == '\n' then Finished(s[..|s| - 1]) + [Unfinished(s[..|s| - 1])]
    else Finished(s[..|s| - 1])
  }

  function EditedLines(ls: seq<string>): (es: seq<string>)
    ensures |es| == |ls|
  {
    seq(|ls|, i requires 0 <= i < |ls| => Edited(ls[i]))
  }

  /** The pieces put back together are the input: nothing typed is lost, and no
      piece has a newline in it. */
  lemma {:induction false} PiecesAreTheInput(s: string)
    ensures Joined(Finished(s)) + Unfinished(s) == s
    ensures '\n' !in Unfinished(s)
    ensures forall l | l in Finished(s) :: '\n' !in l
  {
    hide Finished, Unfinished, Joined;
    if s == [] {
      NoPieces();
    } else {
      var r, c := s[..|s| - 1], s[|s| - 1];
      assert s == r + [c];
      PiecesAreTheInput(r);
      PieceStep(r, c);
      if c == '\n' {
        JoinedAppend(Finished(r), Unfinished(r));
        LineEnded(Joined(Finished(s)), s);
      } else {
        LineGrows(Joined(Finished(r)), Unfinished(r), r, c);
      }
    }
  }

  lemma NoPieces()
    ensures Unfinished([]) == [] && Finished([]) == [] && Joined([]) == []
  {
  }

  lemma LineEnded(j: string, s: string)
    requires j == s
    ensures j + [] == s
  {
  }

  lemma LineGrows(j: string, u: string, r: string, c: char)
    requires j + u == r
    ensures j + (u + [c]) == r + [c]
  {
  }

  function Joined(ls: seq<string>): string {
    if ls == [] then [] else ls[0] + ['\n'] + Joined(ls[1..])
  }

  lemma {:induction false} JoinedAppend(ls: seq<string>, l: string)
    ensures Joined(ls + [l]) == Joined(ls) + l + ['\n']
  {
    if ls == [] {
      assert (ls + [l])[1..] == [];
    } else {
      JoinedAppend(ls[1..], l);
      assert (ls + [l])[1..] == ls[1..] + [l];
    }
  }

  lemma PieceStep(s: string, c: char)
    ensures Unfinished(s + [c]) == if c == '\n' then [] else Unfinished(s) + [c]
    ensures Finished(s + [c]) == if c == '\n' then Finished(s) + [Unfinished(s)] else Finished(s)
  {
    assert (s + [c])[..|s|] == s;
  }

  lemma EditedStep(s: string, c: char)
    requires c != '\n'
    ensures Edited(s + [c]) == Typed(Editor(Edited(s), []), c).text
  {
    assert (s + [c])[..|s|] == s;
  }

  lemma EditedLinesStep(ls: seq<string>, l: string)
    ensures EditedLines(ls + [l]) == EditedLines(ls) + [Edited(l)]
  {
  }

  /** The editor executes exactly the pieces between newlines, each edited by
      itself: nothing carries over from one line to the next. */
  lemma {:induction false} LinesAreEditedPieces(s: string)
    ensures TypedAll(Editor("", []), s) == Editor(Edited(Unfinished(s)), EditedLines(Finished(s)))
  {
    hide TypedAll, Typed, Edited, Unfinished, Finished, EditedLines;
    if s == [] {
      NothingTyped();
    } else {
      var r, c := s[..|s| - 1], s[|s| - 1];
      LinesAreEditedPieces(r);
      assert s == r + [c];
      EditStep(r, c);
    }
  }

  lemma NothingTyped()
    ensures TypedAll(Editor("", []), []) == Editor(Edited(Unfinished([])), EditedLines(Finished([])))
  {
  }

  /** A newline executes the line, and the next one begins empty. */
  lemma NewlineStep(u: string, fs: seq<string>)
    ensures Typed(Editor(Edited(u), EditedLines(fs)), '\n') == Editor(Edited([]), EditedLines(fs + [u]))
  {
    EditedLinesStep(fs, u);
    hide EditedLines;
  }

  /** Any other character edits the line that is being typed. */
  lemma CharacterStep(u: string, fs: seq<string>, c: char)
    requires c != '\n'
    ensures Typed(Editor(Edited(u), EditedLines(fs)), c) == Editor(Edited(u + [c]), EditedLines(fs))
  {
    hide Edited, EditedLines;
    EditedStep(u, c);
  }

  lemma EditStep(r: string, c: char)
    requires TypedAll(Editor("", []), r) == Editor(Edited(Unfinished(r)), EditedLines(Finished(r)))
    ensures TypedAll(Editor("", []), r + [c]) == Editor(Edited(Unfinished(r + [c])), EditedLines(Finished(r + [c])))
  {
    hide TypedAll, Typed, Edited, Unfinished, Finished, EditedLines;
    TypedAppend(Editor("", []), r, c);
    PieceStep(r, c);
    if c == '\n' {
      NewlineStep(Unfinished(r), Finished(r));
    } else {
      CharacterStep(Unfinished(r), Finished(r), c);
    }
  }

  /** Text that fits, without control characters, is kept as typed. */
  lemma {:induction false} PlainText(s: string)
    requires |s| <= 127 && forall i | 0 <= i < |s| :: 0x20 <= s[i] as int <= 0x7E
    ensures Edited(s) == s
  {
    if s != [] {
      PlainText(s[..|s| - 1]);
    }
  }

  /** A printable character is added as long as there is room for it, and refused on a
      full line; a backspace takes the last one, if there is one; any other character
      but a newline does nothing. All that at any point of a line. */
  lemma KeyByKey(s: string, c: char)
    ensures 0x20 <= c as int <= 0x7E ==> Edited(s + [c]) == if |Edited(s)| < 127 then Edited(s) + [c] else Edited(s)
    ensures c as int == 8 ==> (Edited(s) == [] ==> Edited(s + [c]) == [])
    ensures c as int == 8 && Edited(s) != [] ==> Edited(s + [c]) == Edited(s)[..|Edited(s)| - 1]
    ensures !(0x20 <= c as int <= 0x7E) && c as int != 8 ==> Edited(s + [c]) == Edited(s)
  {
    assert (s + [c])[..|s|] == s;
  }

  /** A backspace undoes the character before it exactly when there was room for
      that character; in a full line it takes an older one. */
  lemma BackspaceUndoes(s: string, c: char)
    requires 0x20 <= c as int <= 0x7E
    ensures Edited(s + [c] + [BACKSPACE]) == Edited(s) <==> |Edited(s)| < 127
  {
    hide Edited;
    KeyByKey(s, c);
    KeyByKey(s + [c], BACKSPACE);
  }
}
