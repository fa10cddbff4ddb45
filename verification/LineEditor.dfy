// memmove and memcpy of kernel/src/common/memory.c, and the line editor of run_prompt in
// kernel/src/common/main.c, which rests on them.
module LineEditor {
  import opened Bytes
  import opened Options

  // What memmove has to do, whatever the overlap: the bytes that were at src are at dest.
  function Moved(s: seq<byte>, dest: nat, src: nat, n: nat): (r: seq<byte>)
    requires dest + n <= |s| && src + n <= |s|
    ensures |r| == |s|
  {
    s[..dest] + s[src..src + n] + s[dest + n..]
  }

  // Both pointers are into the same block; which of them is greater decides the direction.
  method MemMove(a: array<byte>, dest: nat, src: nat, n: nat)
    requires dest + n <= a.Length && src + n <= a.Length
    modifies a
    ensures a[..] == Moved(old(a[..]), dest, src, n)
  {
    if src > dest {
      Forward(a, dest, src, n);
    } else if src < dest {
      Backward(a, dest, src, n);
    }
  }

  method Forward(a: array<byte>, dest: nat, src: nat, n: nat)
    requires dest + n <= a.Length && src + n <= a.Length && dest < src
    modifies a
    ensures a[..] == Moved(old(a[..]), dest, src, n)
  {
    ghost var s := a[..];
    MovedNothing(s, dest, src);
    hide Moved;
    var i := 0;
    while i < n
      invariant 0 <= i <= n
      invariant a[..] == Moved(s, dest, src, i)
    {
      MovedForward(s, dest, src, i);
      assert a[src + i] == a[..][src + i];
      a[dest + i] := a[src + i];
      i := i + 1;
    }
  }

  lemma MovedNothing(s: seq<byte>, dest: nat, src: nat)
    requires dest <= |s| && src <= |s|
    ensures Moved(s, dest, src, 0) == s
  {
  }

  // The byte to be copied next has not been overwritten yet: it is above the ones that have.
  lemma MovedForward(s: seq<byte>, dest: nat, src: nat, i: nat)
    requires dest < src && src + i < |s|
    ensures Moved(s, dest, src, i)[src + i] == s[src + i]
    ensures Moved(s, dest, src, i + 1) == Moved(s, dest, src, i)[dest + i := s[src + i]]
  {
  }

  method Backward(a: array<byte>, dest: nat, src: nat, n: nat)
    requires dest + n <= a.Length && src + n <= a.Length && src < dest
    modifies a
    ensures a[..] == Moved(old(a[..]), dest, src, n)
  {
    var i := n;
    while i > 0
      invariant 0 <= i <= n
      invariant forall k :: dest + i <= k < dest + n ==> a[k] == old(a[src + k - dest])
      invariant forall k :: 0 <= k < a.Length && !(dest + i <= k < dest + n) ==> a[k] == old(a[k])
    {
      a[dest + i - 1] := a[src + i - 1];
      i := i - 1;
    }
  }

  // Two different blocks
  method MemCpy(dest: array<byte>, src: array<byte>, n: nat)
    requires dest != src && n <= dest.Length && n <= src.Length
    modifies dest
    ensures dest[..] == src[..n] + old(dest[n..])
  {
    var i := 0;
    while i < n
      invariant 0 <= i <= n
      invariant forall k :: 0 <= k < i ==> dest[k] == src[k]
      invariant forall k :: i <= k < dest.Length ==> dest[k] == old(dest[k])
    {
      dest[i] := src[i];
      i := i + 1;
    }
  }

  // Keys as the prompt loop tells them apart; Char is what the keyboard layout makes of any other
  // key, 0 for a key without a character.
  datatype Key = Nothing | Release | Backspace | Enter | Left | Right | Tab | Char(ch: byte)

  // The text before the cursor and the text after it
  datatype Zipper = Zipper(before: seq<byte>, after: seq<byte>)

  function Edit(z: Zipper, k: Key): Zipper {
    var n := |z.before|;
    match k
    case Nothing | Release | Tab => z
    case Backspace => if n == 0 then z else Zipper(z.before[..n - 1], z.after)
    case Left => if n == 0 then z else Zipper(z.before[..n - 1], [z.before[n - 1]] + z.after)
    case Right => if z.after == [] then z else Zipper(z.before + [z.after[0]], z.after[1..])
    case Char(ch) => if ch == 0 then z else Zipper(z.before + [ch], z.after)
    case Enter => Zipper([], [])
  }

  function EditAll(z: Zipper, keys: seq<Key>): Zipper {
    if keys == [] then z else Edit(EditAll(z, keys[..|keys| - 1]), keys[|keys| - 1])
  }

  // The lines entered on the way
  function Entered(z: Zipper, keys: seq<Key>): seq<seq<byte>> {
    if keys == [] then []
    else
      var shorter := keys[..|keys| - 1];
      var at := EditAll(z, shorter);
      Entered(z, shorter) + if keys[|keys| - 1].Enter? then [at.before + at.after] else []
  }

  // A string as eval reads it, up to the first zero byte
  function CString(s: seq<byte>): seq<byte> {
    if s == [] || s[0] == 0 then [] else [s[0]] + CString(s[1..])
  }

  lemma {:induction false} CStringIs(s: seq<byte>, n: nat)
    requires n < |s| && s[n] == 0 && NonZero(s[..n])
    ensures CString(s) == s[..n]
  {
    if n > 0 {
      assert s[..n] == [s[0]] + s[1..][..n - 1];
      assert s[1..][..n - 1] == s[..n][1..];
      CStringIs(s[1..], n - 1);
    }
  }

  predicate NonZero(s: seq<byte>) {
    forall i :: 0 <= i < |s| ==> s[i] != 0
  }

  lemma InsertedText(s: seq<byte>, pos: nat, len: nat, ch: byte)
    requires pos <= len && len + 1 <= |s|
    ensures var t := Moved(s, pos + 1, pos, len - pos)[pos := ch];
            && t[..pos + 1] == s[..pos] + [ch] && t[pos + 1..len + 1] == s[pos..len]
            && (NonZero(s[..len]) && ch != 0 ==> NonZero(t[..len + 1]))
  {
    var t := Moved(s, pos + 1, pos, len - pos)[pos := ch];
    assert t[..len + 1] == s[..len][..pos] + [ch] + s[..len][pos..];
  }

  lemma DeletedText(s: seq<byte>, pos: nat, len: nat)
    requires 0 < pos <= len <= |s|
    ensures var t := Moved(s, pos - 1, pos, len - pos);
            && t[..pos - 1] == s[..pos - 1] && t[pos - 1..len - 1] == s[pos..len]
            && (NonZero(s[..len]) ==> NonZero(t[..len - 1]))
  {
    var t := Moved(s, pos - 1, pos, len - pos);
    assert t[..len - 1] == s[..len][..pos - 1] + s[..len][pos..];
  }

  class Prompt {
    var line: array<byte>
    var pos: nat
    var lineLen: nat

    ghost predicate Valid()
      reads this, line
    {
      && pos <= lineLen < line.Length
      && NonZero(line[..lineLen])
    }

    ghost function View(): Zipper
      requires Valid()
      reads this, line
    {
      Zipper(line[..pos], line[pos..lineLen])
    }

    constructor ()
      ensures Valid() && fresh(line) && View() == Zipper([], []) && line.Length == 32
    {
      line := new byte[32];
      pos, lineLen := 0, 0;
    }

    // A buffer of twice the size, if malloc gives one
    method Grow(allocates: bool) returns (ok: bool)
      requires Valid()
      modifies this`line
      ensures Valid() && ok == allocates && View() == old(View())
      ensures if ok then fresh(line) && line.Length == 2 * old(line.Length) else line == old(line)
    {
      hide NonZero;
      if !allocates {
        return false;
      }
      var capacity := line.Length;
      var newLine := new byte[capacity * 2];
      MemCpy(newLine, line, capacity);
      assert newLine[..capacity] == line[..];
      assert newLine[..pos] == line[..pos] && newLine[pos..lineLen] == line[pos..lineLen];
      assert newLine[..lineLen] == line[..lineLen];
      line := newLine;
      return true;
    }

    method Insert(ch: byte)
      requires Valid() && lineLen + 1 < line.Length && ch != 0
      modifies this`pos, this`lineLen, line
      ensures Valid() && View() == Zipper(old(View()).before + [ch], old(View()).after)
    {
      hide NonZero, Moved;
      ghost var s := line[..];
      MemMove(line, pos + 1, pos, lineLen - pos);
      line[pos] := ch;
      InsertedText(s, pos, lineLen, ch);
      pos := pos + 1;
      lineLen := lineLen + 1;
    }

    method Delete()
      requires Valid() && pos > 0
      modifies this`pos, this`lineLen, line
      ensures Valid() && View() == Edit(old(View()), Backspace)
    {
      hide NonZero, Moved;
      ghost var s := line[..];
      MemMove(line, pos - 1, pos, lineLen - pos);
      DeletedText(s, pos, lineLen);
      pos := pos - 1;
      lineLen := lineLen - 1;
    }

    // The end of a line: what eval is given
    method Submit() returns (command: seq<byte>)
      requires Valid()
      modifies this`pos, this`lineLen, line
      ensures Valid() && View() == Zipper([], [])
      ensures command == old(View().before + View().after)
    {
      ghost var text := line[..lineLen];
      line[lineLen] := 0;
      assert line[..lineLen] == text;
      CStringIs(line[..], lineLen);
      command := CString(line[..]);
      assert command == old(line[..pos] + line[pos..lineLen]);
      lineLen := 0;
      pos := 0;
    }

    // A key with a character
    method Type(ch: byte, allocates: bool) returns (halted: bool)
      requires Valid() && ch != 0
      modifies this, line
      ensures Valid() && (line == old(line) || fresh(line))
      ensures halted <==> old(lineLen + 1 == line.Length) && !allocates
      ensures View() == if halted then old(View()) else Edit(old(View()), Char(ch))
      ensures halted ==> line == old(line) && lineLen == old(lineLen)
      ensures line.Length == if line == old(line) then old(line.Length) else 2 * old(line.Length)
    {
      hide NonZero;
      if lineLen + 1 == line.Length {
        var ok := Grow(allocates);
        if !ok {
          return true;
        }
      }
      Insert(ch);
      return false;
    }

    // One key. The kernel halts when the buffer is full and malloc gives nothing.
    method Press(k: Key, allocates: bool) returns (halted: bool, command: Option<seq<byte>>)
      requires Valid()
      modifies this, line
      ensures Valid() && (line == old(line) || fresh(line))
      ensures halted <==> k.Char? && k.ch != 0 && old(lineLen + 1 == line.Length) && !allocates
      ensures View() == if halted then old(View()) else Edit(old(View()), k)
      ensures halted ==> line == old(line) && lineLen == old(lineLen)
      ensures line.Length == if line == old(line) then old(line.Length) else 2 * old(line.Length)
      ensures command == if k.Enter? then Some(old(View().before + View().after)) else None
    {
      hide NonZero;
      halted, command := false, None;
      match k {
        case Nothing =>
        case Release =>
        case Tab =>
        case Backspace =>
          if pos != 0 {
            Delete();
          }
        case Enter =>
          var text := Submit();
          command := Some(text);
        case Left =>
          if pos != 0 {
            pos := pos - 1;
            assert line[pos..lineLen] == [line[pos]] + line[pos + 1..lineLen];
          }
        case Right =>
          if pos < lineLen {
            pos := pos + 1;
            assert line[..pos] == line[..pos - 1] + [line[pos - 1]];
          }
        case Char(ch) =>
          if ch != 0 {
            halted := Type(ch, allocates);
          }
      }
    }

    // Any sequence of keys, each with what malloc would do if asked then
    method Run(keys: seq<Key>, allocates: seq<bool>) returns (done: nat, lines: seq<seq<byte>>)
      requires Valid() && |allocates| == |keys|
      modifies this, line
      ensures Valid() && done <= |keys|
      ensures View() == EditAll(old(View()), keys[..done])
      ensures lines == Entered(old(View()), keys[..done])
      ensures done < |keys| ==> !allocates[done] && keys[done].Char? && lineLen + 1 == line.Length
    {
      hide Edit;
      done, lines := 0, [];
      ghost var z := View();
      while done < |keys|
        invariant done <= |keys|
        invariant Valid() && (line == old(line) || fresh(line))
        invariant View() == EditAll(z, keys[..done])
        invariant lines == Entered(z, keys[..done])
      {
        assert keys[..done + 1][..done] == keys[..done];
        var halted, command := Press(keys[done], allocates[done]);
        if halted {
          return;
        }
        if command.Some? {
          lines := lines + [command.value];
        }
        done := done + 1;
      }
    }
  }

  // What it means to be a line editor, for any number of keys.

  function Typed(text: seq<byte>): (keys: seq<Key>)
    ensures |keys| == |text| && forall i :: 0 <= i < |text| ==> keys[i] == Char(text[i])
  {
    seq(|text|, i requires 0 <= i < |text| => Char(text[i]))
  }

  // Typing inserts at the cursor and leaves the text after it alone.
  lemma {:induction false} TypingInserts(z: Zipper, text: seq<byte>)
    requires NonZero(text)
    ensures EditAll(z, Typed(text)) == Zipper(z.before + text, z.after)
    decreases |text|
  {
    if text == [] {
      assert z.before + text == z.before;
    } else {
      var n := |text| - 1;
      TypingInserts(z, text[..n]);
      assert Typed(text)[..n] == Typed(text[..n]);
      assert z.before + text == z.before + text[..n] + [text[n]];
    }
  }

  // The cursor moves over n characters without changing the text; the ends of the line stop it.
  lemma {:induction false} MovingLeft(z: Zipper, n: nat)
    ensures var r := EditAll(z, Repeat(Left, n));
            && r.before + r.after == z.before + z.after
            && |r.before| == if n <= |z.before| then |z.before| - n else 0
    decreases n
  {
    if n > 0 {
      MovingLeft(z, n - 1);
      assert Repeat(Left, n)[..n - 1] == Repeat(Left, n - 1);
    }
  }

  lemma {:induction false} MovingRight(z: Zipper, n: nat)
    ensures var r := EditAll(z, Repeat(Right, n));
            && r.before + r.after == z.before + z.after
            && |r.after| == if n <= |z.after| then |z.after| - n else 0
    decreases n
  {
    if n > 0 {
      MovingRight(z, n - 1);
      assert Repeat(Right, n)[..n - 1] == Repeat(Right, n - 1);
    }
  }

  // Backspaces take characters from before the cursor, as many as there are.
  lemma {:induction false} Erasing(z: Zipper, n: nat)
    ensures var kept := if n <= |z.before| then |z.before| - n else 0;
      EditAll(z, Repeat(Backspace, n)) == Zipper(z.before[..kept], z.after)
    decreases n
  {
    if n > 0 {
      Erasing(z, n - 1);
      assert Repeat(Backspace, n)[..n - 1] == Repeat(Backspace, n - 1);
    }
  }

  // The other keys do nothing, wherever they come.
  predicate Acts(k: Key) {
    k == Backspace || k == Enter || k == Left || k == Right || (k.Char? && k.ch != 0)
  }

  function Acting(keys: seq<Key>): seq<Key> {
    if keys == [] then []
    else
      var k := keys[|keys| - 1];
      if Acts(k) then Acting(keys[..|keys| - 1]) + [k] else Acting(keys[..|keys| - 1])
  }

  lemma {:induction false} OtherKeysDoNothing(z: Zipper, keys: seq<Key>)
    ensures EditAll(z, keys) == EditAll(z, Acting(keys)) && Entered(z, keys) == Entered(z, Acting(keys))
    decreases |keys|
  {
    if keys != [] {
      var shorter, k := keys[..|keys| - 1], keys[|keys| - 1];
      OtherKeysDoNothing(z, shorter);
      if Acts(k) {
        assert (Acting(shorter) + [k])[..|Acting(shorter)|] == Acting(shorter);
      } else {
        assert Entered(z, shorter) + [] == Entered(z, shorter);
      }
    }
  }

  lemma {:induction false} EditAllSplit(z: Zipper, a: seq<Key>, b: seq<Key>)
    ensures EditAll(z, a + b) == EditAll(EditAll(z, a), b)
    decreases |b|
  {
    if b == [] {
      assert a + b == a;
    } else {
      assert (a + b)[..|a + b| - 1] == a + b[..|b| - 1];
      EditAllSplit(z, a, b[..|b| - 1]);
    }
  }

  // As many backspaces as characters typed, and as many rights as lefts, lead back.
  lemma TypedThenErased(z: Zipper, text: seq<byte>)
    requires NonZero(text)
    ensures EditAll(z, Typed(text) + Repeat(Backspace, |text|)) == z
  {
    EditAllSplit(z, Typed(text), Repeat(Backspace, |text|));
    TypingInserts(z, text);
    Erasing(Zipper(z.before + text, z.after), |text|);
  }

  lemma EnteredSplit(z: Zipper, a: seq<Key>, b: seq<Key>)
    ensures Entered(z, a + b) == Entered(z, a) + Entered(EditAll(z, a), b)
    decreases |b|
  {
    if b == [] {
      assert a + b == a;
      assert Entered(z, a) + [] == Entered(z, a);
    } else {
      assert (a + b)[..|a + b| - 1] == a + b[..|b| - 1];
      EnteredSplit(z, a, b[..|b| - 1]);
      EditAllSplit(z, a, b[..|b| - 1]);
    }
  }

  lemma {:induction false} NothingEntered(z: Zipper, text: seq<byte>)
    ensures Entered(z, Typed(text)) == []
    decreases |text|
  {
    if text != [] {
      var n := |text| - 1;
      NothingEntered(z, text[..n]);
      assert Typed(text)[..n] == Typed(text[..n]);
    }
  }

  // The keys for a number of lines
  function LinesTyped(texts: seq<seq<byte>>): seq<Key> {
    if texts == [] then [] else LinesTyped(texts[..|texts| - 1]) + Typed(texts[|texts| - 1]) + [Enter]
  }

  // Every line typed is entered as it was typed, and each begins with an empty prompt.
  lemma {:induction false} LinesEntered(texts: seq<seq<byte>>)
    requires forall i :: 0 <= i < |texts| ==> NonZero(texts[i])
    ensures Entered(Zipper([], []), LinesTyped(texts)) == texts
    ensures EditAll(Zipper([], []), LinesTyped(texts)) == Zipper([], [])
    decreases |texts|
  {
    hide NonZero, EditAll, Entered;
    NoKeys(Zipper([], []));
    if texts != [] {
      var n := |texts| - 1;
      LinesEntered(texts[..n]);
      OneLine(LinesTyped(texts[..n]), texts[n]);
      assert texts == texts[..n] + [texts[n]];
    }
  }

  lemma NoKeys(z: Zipper)
    ensures EditAll(z, []) == z && Entered(z, []) == []
  {
  }

  // One line more, typed into an empty prompt
  lemma OneLine(keys: seq<Key>, text: seq<byte>)
    requires NonZero(text) && EditAll(Zipper([], []), keys) == Zipper([], [])
    ensures Entered(Zipper([], []), keys + Typed(text) + [Enter]) == Entered(Zipper([], []), keys) + [text]
    ensures EditAll(Zipper([], []), keys + Typed(text) + [Enter]) == Zipper([], [])
  {
    hide NonZero, EditAll, Entered;
    var z := Zipper([], []);
    EnteredSplit(z, keys, Typed(text));
    EditAllSplit(z, keys, Typed(text));
    NothingEntered(z, text);
    TypingInserts(z, text);
    OneEnter(z, keys + Typed(text));
    assert [] + text == text && text + [] == text;
  }

  lemma OneEnter(z: Zipper, keys: seq<Key>)
    ensures EditAll(z, keys + [Enter]) == Zipper([], [])
    ensures var at := EditAll(z, keys);
      Entered(z, keys + [Enter]) == Entered(z, keys) + [at.before + at.after]
  {
    assert (keys + [Enter])[..|keys|] == keys;
  }

  lemma LeftsThenRights(z: Zipper, n: nat)
    requires n <= |z.before|
    ensures EditAll(z, Repeat(Left, n) + Repeat(Right, n)) == z
  {
    EditAllSplit(z, Repeat(Left, n), Repeat(Right, n));
    MovingLeft(z, n);
    var m := EditAll(z, Repeat(Left, n));
    MovingRight(m, n);
    var r := EditAll(m, Repeat(Right, n));
    assert |r.before| == |z.before|;
    assert r.before == (r.before + r.after)[..|r.before|] && r.after == (r.before + r.after)[|r.before|..];
    assert z.before == (z.before + z.after)[..|z.before|] && z.after == (z.before + z.after)[|z.before|..];
  }
}
