// The RELR loop of dynld_link in loader/src/dynld.c, against the decoding that the System V gABI
// describes for SHT_RELR sections (chapter Relocation): a word with a clear lowest bit is the address
// of one word to relocate; a word with that bit set is a bitmap for the 63 words that follow.
module Relr {
  import opened Arithmetic
  import opened Bytes

  type Word = w: nat | w < WORDS
  type Memory = map<int, Word>

  const BITMAP_WORDS := 63

  // The words to relocate named by the upper bits v of a bitmap: bit k stands for the word k places
  // after `at`.
  function Marked(at: int, v: nat): seq<int>
    decreases v
  {
    if v == 0 then []
    else (if v % 2 == 1 then [at] else []) + Marked(at + WORD_SIZE, v / 2)
  }

  function PowerOf2(k: nat): (p: nat)
    ensures p > 0
  {
    if k == 0 then 1 else 2 * PowerOf2(k - 1)
  }

  predicate Bit(v: nat, k: nat) {
    v / PowerOf2(k) % 2 == 1
  }

  lemma BitStep(v: nat, k: nat)
    ensures Bit(v, k) <==> if k == 0 then v % 2 == 1 else Bit(v / 2, k - 1)
    ensures v == 0 ==> !Bit(v, k)
  {
    if k > 0 {
      HalvedTwice(v, PowerOf2(k - 1));
    }
    NothingLeft(PowerOf2(k));
  }

  // The word k places after `at` is named if and only if bit k is set.
  lemma {:induction false} MarkedIff(at: int, v: nat, k: nat)
    ensures at + WORD_SIZE * k in Marked(at, v) <==> Bit(v, k)
    decreases v
  {
    hide Bit;
    BitStep(v, k);
    if v > 0 {
      MarkedAbove(at + WORD_SIZE, v / 2);
      if k > 0 {
        MarkedIff(at + WORD_SIZE, v / 2, k - 1);
        assert at + WORD_SIZE + WORD_SIZE * (k - 1) == at + WORD_SIZE * k;
      }
    }
  }

  // No other word is named.
  lemma {:induction false} MarkedOnly(at: int, v: nat, a: int) returns (k: nat)
    requires a in Marked(at, v)
    ensures a == at + WORD_SIZE * k
    decreases v
  {
    if a == at {
      k := 0;
    } else {
      k := MarkedOnly(at + WORD_SIZE, v / 2, a);
      k := k + 1;
    }
  }

  lemma {:induction false} MarkedAbove(at: int, v: nat)
    ensures forall a :: a in Marked(at, v) ==> a >= at
    decreases v
  {
    if v > 0 {
      MarkedAbove(at + WORD_SIZE, v / 2);
    }
  }

  // None is named twice.
  lemma {:induction false} MarkedInOrder(at: int, v: nat)
    ensures forall i, j :: 0 <= i < j < |Marked(at, v)| ==> Marked(at, v)[i] < Marked(at, v)[j]
    decreases v
  {
    if v > 0 {
      var rest := Marked(at + WORD_SIZE, v / 2);
      MarkedInOrder(at + WORD_SIZE, v / 2);
      MarkedAbove(at + WORD_SIZE, v / 2);
      assert forall j :: 0 <= j < |rest| ==> rest[j] in rest;
      if v % 2 == 1 {
        assert Marked(at, v) == [at] + rest;
      } else {
        assert Marked(at, v) == rest;
      }
    }
  }

  lemma NothingLeft(p: nat)
    requires p > 0
    ensures 0 / p % 2 == 0
  {
  }

  lemma HalvedTwice(v: nat, p: nat)
    requires p > 0
    ensures v / 2 / p == v / (2 * p)
  {
    var q, r := v / 2 / p, v / 2 % p;
    DivMod(v / 2, p);
    assert v == (q * p + r) * 2 + v % 2;
    assert (q * p + r) * 2 == q * (2 * p) + r * 2;
    DivUnique(v, q, r * 2 + v % 2, 2 * p);
  }

  // The gABI decoding. `where` is the word after the last one covered so far.
  function Decode(base: int, where: int, table: seq<Word>): seq<int>
    decreases |table|
  {
    if table == [] then []
    else if table[0] % 2 == 0 then
      [base + table[0]] + Decode(base, base + table[0] + WORD_SIZE, table[1..])
    else Marked(where, table[0] / 2) + Decode(base, where + BITMAP_WORDS * WORD_SIZE, table[1..])
  }

  // How many places the inner loop of the loader moves `current` for a bitmap: one for each shift
  // until nothing is left.
  function Shifts(v: nat): (n: nat)
    ensures v > 0 ==> n > 0
    decreases v
  {
    if v == 0 then 0 else 1 + Shifts(v / 2)
  }

  // What the loader does: `current` is the last word it came to.
  function Walk(base: int, current: int, table: seq<Word>): seq<int>
    decreases |table|
  {
    if table == [] then []
    else if table[0] % 2 == 0 then [base + table[0]] + Walk(base, base + table[0], table[1..])
    else Marked(current + WORD_SIZE, table[0] / 2) + Walk(base, current + WORD_SIZE * Shifts(table[0]), table[1..])
  }

  // By how many words the loader is ahead of the gABI when it comes to a bitmap: every bitmap adds
  // the places it shifted and takes 63.
  function Drift(drift: int, w: Word): int {
    if w % 2 == 0 then 0 else drift + Shifts(w) - BITMAP_WORDS
  }

  // Every bitmap that marks a word at all is met without drift.
  predicate NoDrift(drift: int, table: seq<Word>)
    decreases |table|
  {
    table == [] || (
      && (table[0] % 2 == 1 && table[0] > 1 ==> drift == 0)
      && NoDrift(Drift(drift, table[0]), table[1..]))
  }

  lemma {:induction false} MarkedEqual(at: int, at': int, v: nat)
    ensures |Marked(at, v)| == |Marked(at', v)|
    ensures Marked(at, v) == Marked(at', v) <==> v == 0 || at == at'
    decreases v
  {
    if v > 0 {
      var a, a' := Marked(at + WORD_SIZE, v / 2), Marked(at' + WORD_SIZE, v / 2);
      MarkedEqual(at + WORD_SIZE, at' + WORD_SIZE, v / 2);
      if v % 2 == 1 {
        assert Marked(at, v)[0] == at && Marked(at', v)[0] == at';
      } else {
        assert Marked(at, v) == a && Marked(at', v) == a';
      }
    }
  }

  // The loader decodes a table as the gABI does exactly when no bitmap is met with drift. `current`
  // and `where` differ by one word and the drift.
  lemma {:induction false} WalkIsDecode(base: int, current: int, where: int, drift: int, table: seq<Word>)
    requires current + WORD_SIZE == where + drift * WORD_SIZE
    ensures |Walk(base, current, table)| == |Decode(base, where, table)|
    ensures Walk(base, current, table) == Decode(base, where, table) <==> NoDrift(drift, table)
    decreases |table|
  {
    if table != [] {
      var w := table[0];
      var current', where' := Moved(base, current, w), MovedWhere(base, where, w);
      var a, a' := Named(base, current + WORD_SIZE, w), Named(base, where, w);
      WalkIsDecode(base, current', where', Drift(drift, w), table[1..]);
      hide Walk, Decode, Marked, Shifts, NoDrift;
      Unfold(base, current, where, table);
      NamedEqual(base, current, where, drift, table);
      SameParts(a, a', Walk(base, current', table[1..]), Decode(base, where', table[1..]));
    }
  }

  // One entry: the words it names, and where it takes `current` and `where`.
  function Named(base: int, at: int, w: Word): seq<int> {
    if w % 2 == 0 then [base + w] else Marked(at, w / 2)
  }

  function Moved(base: int, current: int, w: Word): int {
    if w % 2 == 0 then base + w else current + WORD_SIZE * Shifts(w)
  }

  function MovedWhere(base: int, where: int, w: Word): int {
    if w % 2 == 0 then base + w + WORD_SIZE else where + BITMAP_WORDS * WORD_SIZE
  }

  lemma Unfold(base: int, current: int, where: int, table: seq<Word>)
    requires table != []
    ensures Walk(base, current, table)
      == Named(base, current + WORD_SIZE, table[0]) + Walk(base, Moved(base, current, table[0]), table[1..])
    ensures Decode(base, where, table)
      == Named(base, where, table[0]) + Decode(base, MovedWhere(base, where, table[0]), table[1..])
  {
    hide Marked, Shifts;
  }

  lemma NamedEqual(base: int, current: int, where: int, drift: int, table: seq<Word>)
    requires table != [] && current + WORD_SIZE == where + drift * WORD_SIZE
    ensures |Named(base, current + WORD_SIZE, table[0])| == |Named(base, where, table[0])|
    ensures NoDrift(drift, table) <==>
      && Named(base, current + WORD_SIZE, table[0]) == Named(base, where, table[0])
      && NoDrift(Drift(drift, table[0]), table[1..])
  {
    hide Marked;
    MarkedEqual(current + WORD_SIZE, where, table[0] / 2);
  }

  lemma SameParts(a: seq<int>, a': seq<int>, b: seq<int>, b': seq<int>)
    requires |a| == |a'|
    ensures a + b == a' + b' <==> a == a' && b == b'
  {
    if a + b == a' + b' {
      assert a == (a + b)[..|a|] && a' == (a' + b')[..|a|];
      assert b == (a + b)[|a|..] && b' == (a' + b')[|a|..];
    }
  }

  // The case without chained bitmaps: every bitmap comes right after an address.
  predicate OneBitmapEach(table: seq<Word>) {
    forall i :: 0 < i < |table| && table[i] % 2 == 1 ==> table[i - 1] % 2 == 0
  }

  lemma {:induction false} OneBitmapEachNoDrift(drift: int, table: seq<Word>)
    requires OneBitmapEach(table) && (drift == 0 || table == [] || table[0] % 2 == 0)
    ensures NoDrift(drift, table)
    decreases |table|
  {
    if table != [] {
      OneBitmapEachNoDrift(Drift(drift, table[0]), table[1..]);
    }
  }

  // Chained bitmaps that mark something are decoded wrongly unless the first has bit 62 as its
  // highest: here the second one relocates the word at 8 + 16, where the gABI asks for 8 + 512.
  lemma ChainedBitmapsDiffer()
    ensures Walk(0, 0, [8, 3, 3]) == [8, 16, 32]
    ensures Decode(0, 0, [8, 3, 3]) == [8, 16, 520]
  {
    hide Walk, Decode, Marked, Shifts;
    var base: int, one, three: Word := 0, 1, 3;
    ShiftsStep(three);
    ShiftsStep(one);
    ShiftsStep(base);
    var t1: seq<Word>, t2: seq<Word>, t3: seq<Word>, t0: seq<Word> := [3], [3, 3], [8, 3, 3], [];
    assert t3[1..] == t2 && t2[1..] == t1 && t1[1..] == t0;
    NoEntries(base, 40, 1024);
    MarkedOne(16);
    MarkedOne(32);
    MarkedOne(520);
    Unfold(base, 24, 520, t1);
    Unfold(base, 8, 16, t2);
    Unfold(base, 0, 0, t3);
  }

  lemma MarkedOne(at: int)
    ensures Marked(at, 1) == [at]
  {
    var half := 0;
    assert Marked(at + WORD_SIZE, half) == [];
  }

  lemma NoEntries(base: int, current: int, where: int)
    ensures Walk(base, current, []) == [] == Decode(base, where, [])
  {
  }

  // --- The loop -------------------------------------------------------------------------------------

  predicate AllIn(addrs: seq<int>, keys: set<int>) {
    forall a :: a in addrs ==> a in keys
  }

  function AddAt(mem: Memory, a: int, base: nat): (r: Memory)
    requires a in mem
    ensures r.Keys == mem.Keys
  {
    mem[a := (mem[a] + base) % WORDS]
  }

  function AddAll(mem: Memory, addrs: seq<int>, base: nat): (r: Memory)
    requires AllIn(addrs, mem.Keys)
    ensures r.Keys == mem.Keys
    decreases |addrs|
  {
    if addrs == [] then mem else AddAll(AddAt(mem, addrs[0], base), addrs[1..], base)
  }

  ghost predicate AllApart(addrs: seq<int>) {
    forall i, j :: 0 <= i < j < |addrs| ==> WordsApart(addrs[i], addrs[j])
  }

  // Word a is one of those named, or shares no byte with them.
  ghost predicate Separate(addrs: seq<int>, a: int) {
    a in addrs || forall i :: 0 <= i < |addrs| ==> WordsApart(addrs[i], a)
  }

  // Each word named gets the base added once, and no other word changes.
  ghost predicate OnceEach(mem: Memory, mem': Memory, addrs: seq<int>, base: nat) {
    && mem'.Keys == mem.Keys
    && forall a :: a in mem && Separate(addrs, a) ==>
         mem'[a] == if a in addrs then (mem[a] + base) % WORDS else mem[a]
  }

  lemma {:induction false} AddedOnce(mem: Memory, addrs: seq<int>, base: nat)
    requires AllIn(addrs, mem.Keys) && AllApart(addrs)
    ensures OnceEach(mem, AddAll(mem, addrs, base), addrs, base)
    decreases |addrs|
  {
    if addrs != [] {
      hide WordsApart, AllApart;
      ApartFirst(addrs);
      var mem' := AddAt(mem, addrs[0], base);
      AddedOnce(mem', addrs[1..], base);
      forall a | a in mem && Separate(addrs, a)
        ensures AddAll(mem, addrs, base)[a] == if a in addrs then (mem[a] + base) % WORDS else mem[a]
      {
        assert a in addrs <==> a == addrs[0] || a in addrs[1..];
        SeparateRest(addrs, a);
      }
    }
  }

  lemma ApartFirst(addrs: seq<int>)
    requires addrs != [] && AllApart(addrs)
    ensures AllApart(addrs[1..]) && addrs[0] !in addrs[1..]
  {
  }

  lemma SeparateRest(addrs: seq<int>, a: int)
    requires addrs != [] && AllApart(addrs) && Separate(addrs, a)
    ensures Separate(addrs[1..], a)
  {
  }

  lemma {:induction false} AddAllSplit(mem: Memory, a: seq<int>, b: seq<int>, base: nat)
    requires AllIn(a, mem.Keys) && AllIn(b, mem.Keys)
    ensures AllIn(a + b, mem.Keys)
    ensures AddAll(mem, a + b, base) == AddAll(AddAll(mem, a, base), b, base)
    decreases |a|
  {
    if a == [] {
      assert a + b == b;
    } else {
      assert (a + b)[1..] == a[1..] + b;
      AddAllSplit(AddAt(mem, a[0], base), a[1..], b, base);
    }
  }

  class Image {
    var mem: Memory

    constructor (mem: Memory)
      ensures this.mem == mem
    {
      this.mem := mem;
    }

    // The branch of the loop for a bitmap. It returns the new `current`.
    method Bitmap(base: nat, current: int, w: Word) returns (next: int)
      requires w % 2 == 1 && AllIn(Marked(current + WORD_SIZE, w / 2), mem.Keys)
      modifies this
      ensures mem == AddAll(old(mem), Marked(current + WORD_SIZE, w / 2), base)
      ensures next == current + WORD_SIZE * Shifts(w)
    {
      hide Marked, Shifts, AddAll, AllIn;
      ghost var all := Marked(current + WORD_SIZE, w / 2);
      var val := w;
      var again := true;
      next := current;
      while again
        invariant mem.Keys == old(mem.Keys)
        invariant again ==> val > 0
        invariant var left := if again then Marked(next + WORD_SIZE, val / 2) else [];
          AllIn(left, mem.Keys) && AddAll(old(mem), all, base) == AddAll(mem, left, base)
        invariant next + WORD_SIZE * (if again then Shifts(val) else 0) == current + WORD_SIZE * Shifts(w)
        decreases if again then val else 0
      {
        MarkedStep(mem, next + WORD_SIZE, val / 2, base);
        ShiftsStep(val);
        ShiftsStep(val / 2);
        val := val / 2;
        next := next + WORD_SIZE;
        if val % 2 == 1 {
          mem := AddAt(mem, next, base);
        }
        again := val != 0;
      }
      NothingAdded(mem, base);
    }

    // The whole loop. What the entries before a refusal named has been relocated by then. A table with
    // one bitmap for each address at most is relocated as the gABI asks for.
    method Relocate(base: nat, table: seq<Word>) returns (ok: bool)
      requires AllIn(Walk(base, 0, table[..Taken(base, 0, table)]), mem.Keys)
      modifies this
      ensures ok <==> Taken(base, 0, table) == |table|
      ensures mem == AddAll(old(mem), Walk(base, 0, table[..Taken(base, 0, table)]), base)
      ensures Unchained(base, table) ==> ok && RelocatedAsAsked(base, table, old(mem), mem)
    {
      hide Walk, AddAll, Marked, Shifts, AllIn, Taken, Unchained, RelocatedAsAsked;
      UnchainedIsDecoded(mem, base, table);
      ghost var n := Taken(base, 0, table);
      ghost var all := Walk(base, 0, table[..n]);
      var current := 0;
      var i := 0;
      assert table[0..n] == table[..n] && table[0..] == table;
      while i < |table|
        invariant 0 <= i <= n <= |table|
        invariant mem.Keys == old(mem.Keys)
        invariant Taken(base, current, table[i..]) == n - i
        invariant AllIn(Walk(base, current, table[i..n]), mem.Keys)
        invariant AddAll(old(mem), all, base) == AddAll(mem, Walk(base, current, table[i..n]), base)
      {
        var val := table[i];
        TakenStep(base, current, table[i..]);
        if val % 2 == 1 && current == 0 {
          assert table[i..n] == [];
          WalkEnd(mem, base, current);
          return false;
        }
        assert table[i..n][0] == val && table[i..n][1..] == table[i + 1..n] && table[i..][1..] == table[i + 1..];
        WalkStep(mem, base, current, table[i..n]);
        if val % 2 == 0 {
          current := base + val;
          mem := AddAt(mem, current, base);
        } else {
          current := Bitmap(base, current, val);
        }
        i := i + 1;
      }
      TakenStep(base, current, table[i..]);
      assert table[i..n] == [];
      WalkEnd(mem, base, current);
      return true;
    }
  }

  // How many entries are taken before a bitmap is met while `current` is null.
  function Taken(base: nat, current: int, table: seq<Word>): (n: nat)
    ensures n <= |table|
    decreases |table|
  {
    if table == [] || (table[0] % 2 == 1 && current == 0) then 0
    else 1 + Taken(base, Moved(base, current, table[0]), table[1..])
  }

  lemma TakenStep(base: nat, current: int, table: seq<Word>)
    ensures Taken(base, current, table) ==
      if table == [] || (table[0] % 2 == 1 && current == 0) then 0
      else 1 + Taken(base, Moved(base, current, table[0]), table[1..])
  {
  }

  // An image at address 0 has a word at address 0, and a bitmap right behind it.
  predicate NullThenBitmap(base: nat, table: seq<Word>) {
    base == 0 && exists i, j :: 0 <= i < |table| && j == i + 1 < |table| && table[i] == 0 && table[j] % 2 == 1
  }

  // A table is refused if and only if it begins with a bitmap, or, for a base of 0 alone, has one
  // behind the address 0.
  lemma {:induction false} RefusedIff(base: nat, current: nat, table: seq<Word>)
    ensures Taken(base, current, table) < |table| <==>
      (table != [] && table[0] % 2 == 1 && current == 0) || NullThenBitmap(base, table)
    decreases |table|
  {
    if table != [] && !(table[0] % 2 == 1 && current == 0) {
      var w, rest := table[0], table[1..];
      ShiftsPositive(w);
      hide Shifts;
      RefusedIff(base, Moved(base, current, w), rest);
      if NullThenBitmap(base, rest) {
        var i, j :| 0 <= i < |rest| && j == i + 1 < |rest| && rest[i] == 0 && rest[j] % 2 == 1;
        var i', j' := i + 1, j + 1;
        assert table[i'] == 0 && table[j'] % 2 == 1;
      }
      if NullThenBitmap(base, table) {
        var i, j :| 0 <= i < |table| && j == i + 1 < |table| && table[i] == 0 && table[j] % 2 == 1;
        if i > 0 {
          var i', j' := i - 1, j - 1;
          assert rest[i'] == 0 && rest[j'] % 2 == 1;
        }
      }
      if base == 0 && w == 0 && rest != [] && rest[0] % 2 == 1 {
        var i, j := 0, 1;
        assert table[i] == 0 && table[j] % 2 == 1;
      }
    }
  }

  // It begins with an address, and no bitmap follows another one, or the address 0.
  predicate Unchained(base: nat, table: seq<Word>) {
    OneBitmapEach(table) && (table != [] ==> table[0] % 2 == 0) && !NullThenBitmap(base, table)
  }

  // Unless two of the words that the gABI names share a byte, each got the base added once.
  ghost predicate RelocatedAsAsked(base: nat, table: seq<Word>, mem: Memory, mem': Memory) {
    AllApart(Decode(base, 0, table)) ==> OnceEach(mem, mem', Decode(base, 0, table), base)
  }

  // Such a table is accepted, and relocated as the gABI asks for.
  lemma UnchainedIsDecoded(mem: Memory, base: nat, table: seq<Word>)
    requires AllIn(Walk(base, 0, table[..Taken(base, 0, table)]), mem.Keys)
    ensures Unchained(base, table) ==>
      && Taken(base, 0, table) == |table|
      && RelocatedAsAsked(base, table, mem, AddAll(mem, Walk(base, 0, table[..Taken(base, 0, table)]), base))
  {
    if Unchained(base, table) {
      RefusedIff(base, 0, table);
      assert table[..|table|] == table;
      OneBitmapEachNoDrift(1, table);
      WalkIsDecode(base, 0, 0, 1, table);
      if AllApart(Decode(base, 0, table)) {
        AddedOnce(mem, Decode(base, 0, table), base);
      }
    }
  }

  lemma ShiftsStep(v: nat)
    ensures Shifts(v) == if v == 0 then 0 else 1 + Shifts(v / 2)
  {
  }

  lemma NothingAdded(mem: Memory, base: nat)
    ensures AddAll(mem, [], base) == mem
  {
  }

  lemma ShiftsPositive(w: Word)
    ensures w % 2 == 1 ==> Shifts(w) > 0
  {
  }

  lemma WalkEnd(mem: Memory, base: nat, current: int)
    ensures AllIn(Walk(base, current, []), mem.Keys) && AddAll(mem, Walk(base, current, []), base) == mem
  {
  }

  lemma MarkedStep(mem: Memory, at: int, v: nat, base: nat)
    requires AllIn(Marked(at, v), mem.Keys)
    ensures v % 2 == 1 ==> at in mem
    ensures var mem' := if v % 2 == 1 then AddAt(mem, at, base) else mem;
      var left := if v == 0 then [] else Marked(at + WORD_SIZE, v / 2);
      AllIn(left, mem'.Keys) && AddAll(mem, Marked(at, v), base) == AddAll(mem', left, base)
  {
    if v > 0 {
      var left := Marked(at + WORD_SIZE, v / 2);
      if v % 2 == 1 {
        assert Marked(at, v) == [at] + left;
        assert Marked(at, v)[0] == at && Marked(at, v)[1..] == left;
        assert at in Marked(at, v) && forall a :: a in left ==> a in Marked(at, v);
      } else {
        assert Marked(at, v) == left;
      }
    }
  }

  lemma WalkStep(mem: Memory, base: nat, current: int, table: seq<Word>)
    requires table != [] && AllIn(Walk(base, current, table), mem.Keys)
    ensures table[0] % 2 == 0 ==>
      && base + table[0] in mem
      && AllIn(Walk(base, base + table[0], table[1..]), mem.Keys)
      && AddAll(mem, Walk(base, current, table), base)
        == AddAll(AddAt(mem, base + table[0], base), Walk(base, base + table[0], table[1..]), base)
    ensures table[0] % 2 == 1 ==>
      && AllIn(Marked(current + WORD_SIZE, table[0] / 2), mem.Keys)
      && AllIn(Walk(base, current + WORD_SIZE * Shifts(table[0]), table[1..]), mem.Keys)
      && AddAll(mem, Walk(base, current, table), base)
        == AddAll(AddAll(mem, Marked(current + WORD_SIZE, table[0] / 2), base),
                  Walk(base, current + WORD_SIZE * Shifts(table[0]), table[1..]), base)
  {
    hide Marked, Shifts;
    var w := table[0];
    var first := if w % 2 == 0 then [base + w] else Marked(current + WORD_SIZE, w / 2);
    var rest :=
      if w % 2 == 0 then Walk(base, base + w, table[1..])
      else Walk(base, current + WORD_SIZE * Shifts(w), table[1..]);
    assert Walk(base, current, table) == first + rest;
    hide Walk;
    assert forall a :: a in first + rest <==> a in first || a in rest;
    AddAllSplit(mem, first, rest, base);
    if w % 2 == 0 {
      assert first[0] == base + w && first[1..] == [];
      assert AddAll(mem, first, base) == AddAt(mem, base + w, base);
    }
  }
}
