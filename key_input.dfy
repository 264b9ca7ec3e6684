/**
 * The two keyboard loops every screen is built from, as in
 * source/password_manager_framework.py: choice_function moves a one-item
 * highlight through a menu (an array of colour pair numbers, 1 for the
 * highlighted item and 2 for the others), and input_function reads a line of
 * text key by key. Keys are the integers curses' getch returns; the screen
 * drawing is left out, only the values the loops compute are kept.
 */
module KeyInput {
  import opened Common

  const KeyDown := 258
  const KeyUp := 259
  const KeyLeft := 260
  const KeyRight := 261
  const KeyBackspace := 263
  const Escape := 27

  /** Enter arrives as line feed or carriage return. */
  predicate IsEnter(key: int) { key == 10 || key == 13 }

  /** The codes getch returns in blocking mode: all of them name a character for chr. */
  predicate IsKeyCode(key: int) { 0 <= key < 512 }

  /* ---------- choice_function ---------- */

  /** The highlighted item after one key in a menu of n items. */
  function Move(ky: int, n: int, key: int): int {
    if key == KeyDown && ky < n - 1 then ky + 1
    else if key == KeyUp && ky > 0 then ky - 1
    else ky
  }

  /** The pair numbers after one key: only the item left and the item entered are repainted. */
  function Repaint(pairs: seq<int>, ky: int, key: int): seq<int>
    requires 0 <= ky < |pairs|
  {
    if key == KeyDown && ky < |pairs| - 1 then pairs[ky := 2][ky + 1 := 1]
    else if key == KeyUp && ky > 0 then pairs[ky - 1 := 1][ky := 2]
    else pairs
  }

  /** Whether the menu loop goes on after the key: Enter ends it, Escape only opens the exit prompt. */
  function KeepsGoing(go: bool, key: int): bool {
    if IsEnter(key) then false else go
  }

  /** Exactly the item ky is highlighted. */
  predicate SingleHighlight(pairs: seq<int>, ky: int) {
    0 <= ky < |pairs| && pairs[ky] == 1 && forall i :: 0 <= i < |pairs| && i != ky ==> pairs[i] == 2
  }

  /**
   * One call of choice_function. The exit prompt that Escape opens never
   * ends the program (it compares the key read with a list), so Escape
   * changes nothing here.
   */
  method ChoiceFunction(key: int, ky: int, pairNumber: array<int>, go: bool) returns (ky': int, go': bool)
    requires 0 <= ky < pairNumber.Length
    modifies pairNumber
    ensures ky' == Move(ky, pairNumber.Length, key)
    ensures pairNumber[..] == Repaint(old(pairNumber[..]), ky, key)
    ensures go' == KeepsGoing(go, key)
  {
    var kyMax := pairNumber.Length - 1;
    ky', go' := ky, go;
    if key == KeyDown && ky < kyMax {
      pairNumber[ky] := 2;
      pairNumber[ky + 1] := 1;
      ky' := ky + 1;
    } else if key == KeyUp && ky > 0 {
      pairNumber[ky - 1] := 1;
      pairNumber[ky] := 2;
      ky' := ky - 1;
    } else if key == Escape {
    } else if IsEnter(key) {
      go' := false;
    }
  }

  /** The highlight stays on one item, the item the index names, and the index stays in the menu. */
  lemma MoveKeepsSingleHighlight(pairs: seq<int>, ky: int, key: int)
    requires SingleHighlight(pairs, ky)
    ensures SingleHighlight(Repaint(pairs, ky, key), Move(ky, |pairs|, key))
    ensures -1 <= Move(ky, |pairs|, key) - ky <= 1
  {
  }

  /** Down then up comes back to the same item and the same colours. */
  lemma UpUndoesDown(pairs: seq<int>, ky: int)
    requires SingleHighlight(pairs, ky) && ky < |pairs| - 1
    ensures Move(Move(ky, |pairs|, KeyDown), |pairs|, KeyUp) == ky
    ensures Repaint(Repaint(pairs, ky, KeyDown), ky + 1, KeyUp) == pairs
  {
    var back := Repaint(Repaint(pairs, ky, KeyDown), ky + 1, KeyUp);
    assert forall i :: 0 <= i < |pairs| ==> back[i] == pairs[i];
  }

  /** At the ends of the menu the arrow keys change nothing. */
  lemma EdgesHold(pairs: seq<int>, ky: int)
    requires SingleHighlight(pairs, ky)
    ensures ky == |pairs| - 1 ==> Move(ky, |pairs|, KeyDown) == ky && Repaint(pairs, ky, KeyDown) == pairs
    ensures ky == 0 ==> Move(ky, |pairs|, KeyUp) == ky && Repaint(pairs, ky, KeyUp) == pairs
  {
  }

  /* ---------- input_function ---------- */

  /** The text typed so far and the cursor, counted in columns from the start of the field. */
  datatype Line = Line(text: string, cursor: int)

  /** The cursor is never left of the field and never right of the text. */
  predicate CursorInText(line: Line) { 0 <= line.cursor <= |line.text| }

  predicate IsCursorKey(key: int) { key == KeyLeft || key == KeyRight || key == KeyUp || key == KeyDown }

  /** A key that input_function types into the text: anything that is not Enter, Escape, Backspace or an arrow. */
  predicate IsTyped(key: int) {
    !IsEnter(key) && key != Escape && key != KeyBackspace && !IsCursorKey(key)
  }

  /** chr of a key code. */
  function KeyChar(key: int): char
    requires IsKeyCode(key)
  {
    key as char
  }

  /**
   * What one key other than Enter and Escape does. Backspace drops the last
   * character, wherever the cursor is; a typed character is appended at the
   * end, wherever the cursor is; the arrows only move the cursor.
   */
  function Edit(line: Line, key: int): Line
    requires IsKeyCode(key)
  {
    if key == KeyBackspace then
      (if line.cursor > 0 then Line(if |line.text| > 0 then line.text[..|line.text| - 1] else line.text, line.cursor - 1)
       else line)
    else if key == KeyRight then
      (if line.cursor < |line.text| then line.(cursor := line.cursor + 1) else line)
    else if key == KeyLeft then
      (if line.cursor > 0 then line.(cursor := line.cursor - 1) else line)
    else if key == KeyUp || key == KeyDown then line
    else Line(line.text + [KeyChar(key)], line.cursor + 1)
  }

  /**
   * The line input_function returns for the keys, and how many keys it
   * reads; None when the keys run out before Enter. Escape opens the exit
   * prompt, which reads one more key and never ends the program.
   */
  function Typed(keys: seq<int>, line: Line): (r: Option<(string, nat)>)
    requires forall i :: 0 <= i < |keys| ==> IsKeyCode(keys[i])
    decreases |keys|
    ensures r.Some? ==> 1 <= r.value.1 <= |keys| && IsEnter(keys[r.value.1 - 1])
    ensures r.Some? ==> |r.value.0| <= |line.text| + r.value.1 - 1
  {
    if keys == [] then None
    else if IsEnter(keys[0]) then Some((line.text, 1))
    else if keys[0] == Escape then
      if |keys| == 1 then None else Shift(Typed(keys[2..], line), 2)
    else Shift(Typed(keys[1..], Edit(line, keys[0])), 1)
  }

  /** A line read from keys further on counts the keys before them too. */
  function Shift(r: Option<(string, nat)>, k: nat): Option<(string, nat)> {
    match r
    case None => None
    case Some((text, n)) => Some((text, n + k))
  }

  /**
   * What input_function returns when it has read up to key i with the line
   * so far: the same reading as Typed, counted from the first key.
   */
  function TypedFrom(keys: seq<int>, i: nat, line: Line): Option<(string, nat)>
    requires forall j :: 0 <= j < |keys| ==> IsKeyCode(keys[j])
    requires i <= |keys|
    decreases |keys| - i
  {
    if i == |keys| then None
    else if IsEnter(keys[i]) then Some((line.text, i + 1))
    else if keys[i] == Escape then
      if i + 1 == |keys| then None else TypedFrom(keys, i + 2, line)
    else TypedFrom(keys, i + 1, Edit(line, keys[i]))
  }

  /** Reading on from key i is reading what is left and counting the i keys before it. */
  lemma {:induction false} TypedFromIsShift(keys: seq<int>, i: nat, line: Line)
    requires forall j :: 0 <= j < |keys| ==> IsKeyCode(keys[j])
    requires i <= |keys|
    ensures TypedFrom(keys, i, line) == Shift(Typed(keys[i..], line), i)
    decreases |keys| - i
  {
    if i < |keys| {
      assert keys[i..][0] == keys[i];
      if IsEnter(keys[i]) {
      } else if keys[i] == Escape {
        if i + 1 < |keys| {
          assert keys[i..][2..] == keys[i + 2..];
          TypedFromIsShift(keys, i + 2, line);
        } else {
          assert keys[i..] == [keys[i]];
        }
      } else {
        assert keys[i..][1..] == keys[i + 1..];
        TypedFromIsShift(keys, i + 1, Edit(line, keys[i]));
      }
    }
  }

  /** One key keeps the cursor inside the text. */
  lemma EditKeepsCursorInText(line: Line, key: int)
    requires IsKeyCode(key) && CursorInText(line)
    ensures CursorInText(Edit(line, key))
    ensures IsTyped(key) ==> Edit(line, key).text == line.text + [KeyChar(key)]
    ensures key == KeyBackspace ==> Edit(line, key).text == if line.cursor > 0 then line.text[..|line.text| - 1] else line.text
    ensures IsCursorKey(key) ==> Edit(line, key).text == line.text
  {
  }

  /** The characters a run of typed keys stands for. */
  function Chars(keys: seq<int>): (s: string)
    requires forall i :: 0 <= i < |keys| ==> IsKeyCode(keys[i])
    ensures |s| == |keys|
    ensures forall i :: 0 <= i < |keys| ==> s[i] == KeyChar(keys[i])
  {
    if keys == [] then [] else [KeyChar(keys[0])] + Chars(keys[1..])
  }

  /** Typed keys followed by Enter come back as exactly their characters, after what was there. */
  lemma TypedKeysEcho(keys: seq<int>, line: Line, enter: int)
    requires forall i :: 0 <= i < |keys| ==> IsKeyCode(keys[i]) && IsTyped(keys[i])
    requires IsEnter(enter)
    ensures Typed(keys + [enter], line) == Some((line.text + Chars(keys), |keys| + 1))
  {
    EditsTyped(keys, line);
    EnterAfterEdits(keys, line, enter, line.text + Chars(keys));
  }

  /** The keys after the Enter that ends the line are never read. */
  lemma {:induction false} KeysAfterEnterUnread(keys: seq<int>, line: Line, more: seq<int>)
    requires forall i :: 0 <= i < |keys| ==> IsKeyCode(keys[i])
    requires forall i :: 0 <= i < |more| ==> IsKeyCode(more[i])
    requires Typed(keys, line).Some?
    ensures var n := Typed(keys, line).value.1;
            Typed(keys[..n] + more, line) == Typed(keys, line)
    decreases |keys|
  {
    var n := Typed(keys, line).value.1;
    var ks := keys[..n] + more;
    assert forall i :: 0 <= i < |ks| ==> IsKeyCode(ks[i]);
    assert ks[0] == keys[0];
    if IsEnter(keys[0]) {
    } else if keys[0] == Escape {
      assert ks[2..] == keys[2..][..n - 2] + more;
      KeysAfterEnterUnread(keys[2..], line, more);
    } else {
      assert ks[1..] == keys[1..][..n - 1] + more;
      KeysAfterEnterUnread(keys[1..], Edit(line, keys[0]), more);
    }
  }

  /** The branches of input_function for a key other than Enter and Escape. */
  method EditKey(userInput: string, x: int, beginX: int, inp: int, isPassword: bool)
    returns (userInput': string, x': int)
    requires IsKeyCode(inp) && beginX <= x <= beginX + |userInput|
    ensures Line(userInput', x' - beginX) == Edit(Line(userInput, x - beginX), inp)
    ensures beginX <= x' <= beginX + |userInput'|
  {
    userInput', x' := userInput, x;
    if inp == KeyBackspace {
      if x > beginX {
        userInput' := userInput[..|userInput| - 1];
        x' := x - 1;
      }
    } else if inp == KeyRight {
      if x < beginX + |userInput| {
        x' := x + 1;
      }
    } else if inp == KeyLeft {
      if x > beginX {
        x' := x - 1;
      }
    } else if inp == KeyUp || inp == KeyDown {
    } else if !isPassword {
      userInput' := userInput + [KeyChar(inp)];
      x' := x + 1;
    } else {
      // only the echo differs: a '*' is drawn instead of the character
      userInput' := userInput + [KeyChar(inp)];
      x' := x + 1;
    }
  }

  /**
   * input_function: reads keys until Enter and returns the line typed, with
   * the number of keys read; None when the keys run out first. inputX is the
   * column the field starts at; the cursor column x never leaves
   * [inputX, inputX + |text|]. The result does not depend on isPassword,
   * which only masks what is drawn.
   */
  method InputFunction(keys: seq<int>, inputX: int, isPassword: bool) returns (r: Option<string>, used: nat)
    requires forall i :: 0 <= i < |keys| ==> IsKeyCode(keys[i])
    ensures Typed(keys, Line("", 0)) == if r.Some? then Some((r.value, used)) else None
    ensures r.None? ==> used == |keys|
  {
    var beginX := inputX;
    var x := inputX;
    var userInput := "";
    var i := 0;
    ghost var spec := Typed(keys, Line("", 0));
    TypedFromIsShift(keys, 0, Line("", 0));
    assert keys[0..] == keys;
    while i < |keys|
      invariant 0 <= i <= |keys|
      invariant beginX <= x <= beginX + |userInput|
      invariant spec == TypedFrom(keys, i, Line(userInput, x - beginX))
      decreases |keys| - i
    {
      var inp := keys[i];
      if IsEnter(inp) {
        return Some(userInput), i + 1;
      } else if inp == Escape {
        // the exit prompt reads one key and returns
        if i + 1 == |keys| {
          return None, |keys|;
        }
        i := i + 2;
      } else {
        userInput, x := EditKey(userInput, x, beginX, inp, isPassword);
        i := i + 1;
      }
    }
    return None, |keys|;
  }

  /** The line after keys none of which is Enter or Escape. */
  function Edits(line: Line, keys: seq<int>): Line
    requires forall i :: 0 <= i < |keys| ==> IsKeyCode(keys[i])
    decreases |keys|
  {
    if keys == [] then line else Edits(Edit(line, keys[0]), keys[1..])
  }

  /** Keys that neither end the line nor open the exit prompt only edit it. */
  lemma {:induction false} TypedAfterEdits(pre: seq<int>, rest: seq<int>, line: Line)
    requires forall i :: 0 <= i < |pre| ==> IsKeyCode(pre[i]) && !IsEnter(pre[i]) && pre[i] != Escape
    requires forall i :: 0 <= i < |rest| ==> IsKeyCode(rest[i])
    ensures Typed(pre + rest, line) == Shift(Typed(rest, Edits(line, pre)), |pre|)
  {
    if pre == [] {
      assert pre + rest == rest;
    } else {
      var ks := pre + rest;
      assert ks[0] == pre[0];
      assert ks[1..] == pre[1..] + rest;
      var edited := Edit(line, pre[0]);
      TypedEditHead(ks, line);
      TypedAfterEdits(pre[1..], rest, edited);
      assert Edits(line, pre) == Edits(edited, pre[1..]);
      ShiftTwice(Typed(rest, Edits(edited, pre[1..])), |pre| - 1, 1);
    }
  }

  lemma ShiftTwice(r: Option<(string, nat)>, a: nat, b: nat)
    ensures Shift(Shift(r, a), b) == Shift(r, a + b)
  {
  }

  /** Keys that only edit the line, then Enter: the edited text comes back, with every key counted. */
  lemma EnterAfterEdits(edits: seq<int>, line: Line, enter: int, text: string)
    requires forall i :: 0 <= i < |edits| ==> IsKeyCode(edits[i]) && !IsEnter(edits[i]) && edits[i] != Escape
    requires IsEnter(enter)
    requires Edits(line, edits).text == text
    ensures forall i :: 0 <= i < |edits + [enter]| ==> IsKeyCode((edits + [enter])[i])
    ensures Typed(edits + [enter], line) == Some((text, |edits| + 1))
  {
    var keys := edits + [enter];
    forall i | 0 <= i < |keys| ensures IsKeyCode(keys[i]) {
      if i < |edits| { assert keys[i] == edits[i]; } else { assert keys[i] == enter; }
    }
    TypedAfterEdits(edits, [enter], line);
    var edited := Edits(line, edits);
    assert Typed([enter], edited) == Some((edited.text, 1));
  }

  /** One key other than Enter and Escape at the front edits the line and is counted. */
  lemma TypedEditHead(keys: seq<int>, line: Line)
    requires forall i :: 0 <= i < |keys| ==> IsKeyCode(keys[i])
    requires |keys| > 0 && !IsEnter(keys[0]) && keys[0] != Escape
    ensures Typed(keys, line) == Shift(Typed(keys[1..], Edit(line, keys[0])), 1)
  {
  }

  lemma {:induction false} EditsAppend(a: seq<int>, b: seq<int>, line: Line)
    requires forall i :: 0 <= i < |a| ==> IsKeyCode(a[i])
    requires forall i :: 0 <= i < |b| ==> IsKeyCode(b[i])
    ensures Edits(line, a + b) == Edits(Edits(line, a), b)
  {
    if a == [] {
      assert a + b == b;
    } else {
      assert (a + b)[0] == a[0];
      assert (a + b)[1..] == a[1..] + b;
      EditsAppend(a[1..], b, Edit(line, a[0]));
    }
  }

  /** Typed keys append their characters and move the cursor along. */
  lemma {:induction false} EditsTyped(keys: seq<int>, line: Line)
    requires forall i :: 0 <= i < |keys| ==> IsKeyCode(keys[i]) && IsTyped(keys[i])
    ensures Edits(line, keys) == Line(line.text + Chars(keys), line.cursor + |keys|)
  {
    if keys == [] {
      assert line.text + Chars(keys) == line.text;
    } else {
      var edited := Edit(line, keys[0]);
      EditTypedKey(line, keys[0]);
      assert Edits(line, keys) == Edits(edited, keys[1..]);
      EditsTyped(keys[1..], edited);
      assert Chars(keys) == [KeyChar(keys[0])] + Chars(keys[1..]);
      assert line.text + Chars(keys) == edited.text + Chars(keys[1..]);
      assert line.cursor + |keys| == edited.cursor + |keys[1..]|;
    }
  }

  lemma EditTypedKey(line: Line, key: int)
    requires IsKeyCode(key) && IsTyped(key)
    ensures Edit(line, key) == Line(line.text + [KeyChar(key)], line.cursor + 1)
  {
  }

  /** The arrow keys never change the text. */
  lemma {:induction false} EditsCursor(keys: seq<int>, line: Line)
    requires forall i :: 0 <= i < |keys| ==> IsKeyCode(keys[i]) && IsCursorKey(keys[i])
    ensures Edits(line, keys).text == line.text
  {
    if keys != [] {
      EditsCursor(keys[1..], Edit(line, keys[0]));
    }
  }

  /** The edits before Enter in NavigationNeverInserts: the arrows leave the typed text alone. */
  lemma NavigationEdits(pre: seq<int>, arrows: seq<int>, post: seq<int>)
    requires forall i :: 0 <= i < |pre| ==> IsKeyCode(pre[i]) && IsTyped(pre[i])
    requires forall i :: 0 <= i < |arrows| ==> IsKeyCode(arrows[i]) && IsCursorKey(arrows[i])
    requires forall i :: 0 <= i < |post| ==> IsKeyCode(post[i]) && IsTyped(post[i])
    ensures var edits := pre + arrows + post;
            && (forall i :: 0 <= i < |edits| ==> IsKeyCode(edits[i]) && !IsEnter(edits[i]) && edits[i] != Escape)
            && Edits(Line("", 0), edits).text == Chars(pre) + Chars(post)
  {
    var l0 := Line("", 0);
    var l1 := Edits(l0, pre);
    EditsTyped(pre, l0);
    assert l1.text == Chars(pre) by { assert [] + Chars(pre) == Chars(pre); }
    var l2 := Edits(l1, arrows);
    EditsCursor(arrows, l1);
    var l3 := Edits(l2, post);
    EditsTyped(post, l2);
    var edits := pre + arrows + post;
    forall i | 0 <= i < |edits| ensures IsKeyCode(edits[i]) && !IsEnter(edits[i]) && edits[i] != Escape {
      if i < |pre| { assert edits[i] == pre[i]; }
      else if i < |pre| + |arrows| { assert edits[i] == arrows[i - |pre|]; }
      else { assert edits[i] == post[i - |pre| - |arrows|]; }
    }
    EditsAppend(pre, arrows, l0);
    EditsAppend(pre + arrows, post, l0);
  }

  /**
   * Moving the cursor back and typing on still appends: the keys of pre,
   * any arrows, then the keys of post give the characters of pre followed by
   * those of post.
   */
  lemma NavigationNeverInserts(pre: seq<int>, arrows: seq<int>, post: seq<int>, enter: int)
    requires forall i :: 0 <= i < |pre| ==> IsKeyCode(pre[i]) && IsTyped(pre[i])
    requires forall i :: 0 <= i < |arrows| ==> IsKeyCode(arrows[i]) && IsCursorKey(arrows[i])
    requires forall i :: 0 <= i < |post| ==> IsKeyCode(post[i]) && IsTyped(post[i])
    requires IsEnter(enter)
    ensures forall i :: 0 <= i < |pre + arrows + post + [enter]| ==> IsKeyCode((pre + arrows + post + [enter])[i])
    ensures Typed(pre + arrows + post + [enter], Line("", 0)) == Some((Chars(pre) + Chars(post), |pre| + |arrows| + |post| + 1))
  {
    NavigationEdits(pre, arrows, post);
    EnterAfterEdits(pre + arrows + post, Line("", 0), enter, Chars(pre) + Chars(post));
  }

  /** The edits before Enter in BackspaceDropsLastTyped: Backspace takes back the last key of pre. */
  lemma BackspaceEdits(pre: seq<int>, post: seq<int>)
    requires |pre| > 0
    requires forall i :: 0 <= i < |pre| ==> IsKeyCode(pre[i]) && IsTyped(pre[i])
    requires forall i :: 0 <= i < |post| ==> IsKeyCode(post[i]) && IsTyped(post[i])
    ensures var edits := pre + [KeyBackspace] + post;
            && (forall i :: 0 <= i < |edits| ==> IsKeyCode(edits[i]) && !IsEnter(edits[i]) && edits[i] != Escape)
            && Edits(Line("", 0), edits).text == Chars(pre)[..|pre| - 1] + Chars(post)
  {
    var edits := pre + [KeyBackspace] + post;
    forall i | 0 <= i < |edits| ensures IsKeyCode(edits[i]) && !IsEnter(edits[i]) && edits[i] != Escape {
      if i < |pre| { assert edits[i] == pre[i]; }
      else if i > |pre| { assert edits[i] == post[i - |pre| - 1]; }
    }
    EditsAppend(pre + [KeyBackspace], post, Line("", 0));
    EditsAppend(pre, [KeyBackspace], Line("", 0));
    EditsTyped(pre, Line("", 0));
    var l1 := Edits(Line("", 0), pre);
    assert l1 == Line(Chars(pre), |pre|);
    var l2 := Edits(l1, [KeyBackspace]);
    assert l2 == Line(Chars(pre)[..|pre| - 1], |pre| - 1);
    EditsTyped(post, l2);
  }

  /**
   * Backspace right after typing drops the last character typed: the keys
   * of pre, Backspace, then the keys of post give pre without its last
   * character followed by post.
   */
  lemma BackspaceDropsLastTyped(pre: seq<int>, post: seq<int>, enter: int)
    requires |pre| > 0
    requires forall i :: 0 <= i < |pre| ==> IsKeyCode(pre[i]) && IsTyped(pre[i])
    requires forall i :: 0 <= i < |post| ==> IsKeyCode(post[i]) && IsTyped(post[i])
    requires IsEnter(enter)
    ensures forall i :: 0 <= i < |pre + [KeyBackspace] + post + [enter]|
              ==> IsKeyCode((pre + [KeyBackspace] + post + [enter])[i])
    ensures Typed(pre + [KeyBackspace] + post + [enter], Line("", 0))
         == Some((Chars(pre)[..|pre| - 1] + Chars(post), |pre| + |post| + 2))
  {
    var edits := pre + [KeyBackspace] + post;
    BackspaceEdits(pre, post);
    assert |edits| + 1 == |pre| + |post| + 2;
    EnterAfterEdits(edits, Line("", 0), enter, Chars(pre)[..|pre| - 1] + Chars(post));
  }

  /** h, e, l, l, o, Enter gives "hello". */
  lemma HelloExample()
    ensures Typed([104, 101, 108, 108, 111, 10], Line("", 0)) == Some(("hello", 6))
  {
    var keys := [104, 101, 108, 108, 111];
    TypedKeysEcho(keys, Line("", 0), 10);
    assert keys + [10] == [104, 101, 108, 108, 111, 10];
    assert "" + Chars(keys) == "hello";
  }

  /** h, e, l, Backspace, o, Enter gives "heo". */
  lemma BackspaceExample()
    ensures Typed([104, 101, 108, KeyBackspace, 111, 10], Line("", 0)) == Some(("heo", 6))
  {
    var pre, post := [104, 101, 108], [111];
    BackspaceDropsLastTyped(pre, post, 10);
    assert pre + [KeyBackspace] + post + [10] == [104, 101, 108, KeyBackspace, 111, 10];
    assert Chars(pre)[..2] + Chars(post) == "heo";
  }

  /**
   * h, e, l, Left, Left, o, Enter gives "helo": the arrows move the cursor
   * but typing always appends at the end.
   */
  lemma NavigationExample()
    ensures Typed([104, 101, 108, KeyLeft, KeyLeft, 111, 10], Line("", 0)) == Some(("helo", 7))
  {
    var pre, arrows, post := [104, 101, 108], [KeyLeft, KeyLeft], [111];
    NavigationNeverInserts(pre, arrows, post, 10);
    assert pre + arrows + post + [10] == [104, 101, 108, KeyLeft, KeyLeft, 111, 10];
    assert Chars(pre) + Chars(post) == "helo";
  }
}
