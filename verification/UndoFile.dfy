// store_uninstall_data and load_uninstall_data of limine.c: the uninstall log as a file.
module UndoFile {
  import opened Arithmetic
  import opened Bytes
  import opened Options
  import opened UndoLog

  const UNINSTALL_DATA_MAX := 256

  function Pow256(k: nat): (p: nat)
    ensures p > 0
  {
    if k == 0 then 1 else 256 * Pow256(k - 1)
  }

  // The k low bytes of n, least significant first.
  function LowBytes(n: nat, k: nat): (s: seq<byte>)
    ensures |s| == k
    decreases k
  {
    if k == 0 then [] else [(n % 256) as byte] + LowBytes(n / 256, k - 1)
  }

  function Number(s: seq<byte>): (n: nat) {
    if s == [] then 0 else s[0] as nat + 256 * Number(s[1..])
  }

  lemma {:induction false} NumberOfBytes(n: nat, k: nat)
    requires n < Pow256(k)
    ensures Number(LowBytes(n, k)) == n
    decreases k
  {
    if k > 0 {
      assert n / 256 < Pow256(k - 1);
      NumberOfBytes(n / 256, k - 1);
      assert LowBytes(n, k)[1..] == LowBytes(n / 256, k - 1);
    }
  }

  lemma {:induction false} NumberBelow(s: seq<byte>)
    ensures Number(s) < Pow256(|s|)
    decreases |s|
  {
    if s != [] {
      NumberBelow(s[1..]);
    }
  }

  lemma Pow256Of8()
    ensures Pow256(8) == WORDS
  {
    assert Pow256(2) == 0x1_0000;
    assert Pow256(4) == 0x1_0000_0000;
    assert Pow256(6) == 0x1_0000_0000_0000;
  }

  function U64(n: nat): (s: seq<byte>)
    ensures |s| == 8
  {
    LowBytes(n, 8)
  }

  lemma NumberOfU64(n: nat)
    requires n < WORDS
    ensures Number(U64(n)) == n
  {
    Pow256Of8();
    var k := 8;
    NumberOfBytes(n, k);
  }

  function EntryBytes(e: Saved): seq<byte> {
    U64(e.loc) + U64(|e.data|) + e.data
  }

  function EntriesBytes(log: seq<Saved>): seq<byte> {
    if log == [] then [] else EntryBytes(log[0]) + EntriesBytes(log[1..])
  }

  function FileOf(log: seq<Saved>): seq<byte> {
    U64(|log|) + EntriesBytes(log)
  }

  // What fits the file format, and is not refused by fwrite or fread: they return 0 for an item of
  // no bytes.
  predicate Storable(log: seq<Saved>) {
    && |log| <= UNINSTALL_DATA_MAX
    && forall i :: 0 <= i < |log| ==> 0 < |log[i].data| < WORDS && log[i].loc < WORDS
  }

  lemma {:induction false} EntriesAppend(log: seq<Saved>, e: Saved)
    ensures EntriesBytes(log + [e]) == EntriesBytes(log) + EntryBytes(e)
    decreases |log|
  {
    if log == [] {
      assert EntriesBytes([e]) == EntryBytes(e) + EntriesBytes([]);
    } else {
      assert (log + [e])[1..] == log[1..] + [e];
      EntriesAppend(log[1..], e);
    }
  }

  lemma StoredOneMore(log: seq<Saved>, i: nat, file: seq<byte>)
    requires i < |log| && file == U64(|log|) + EntriesBytes(log[..i])
    ensures file + U64(log[i].loc) + U64(|log[i].data|) + log[i].data == U64(|log|) + EntriesBytes(log[..i + 1])
  {
    hide U64;
    assert log[..i + 1] == log[..i] + [log[i]];
    EntriesAppend(log[..i], log[i]);
    hide EntriesBytes;
    assert file + U64(log[i].loc) + U64(|log[i].data|) + log[i].data == file + EntryBytes(log[i]);
  }

  // The file is as FileOf says; an entry without bytes makes the storing fail.
  method Store(log: seq<Saved>) returns (ok: bool, file: seq<byte>)
    ensures ok <==> forall i :: 0 <= i < |log| ==> log[i].data != []
    ensures ok ==> file == FileOf(log)
  {
    hide U64, EntriesBytes;
    file := U64(|log|);
    NoEntries(log);
    var i := 0;
    while i < |log|
      invariant 0 <= i <= |log|
      invariant forall k :: 0 <= k < i ==> log[k].data != []
      invariant file == U64(|log|) + EntriesBytes(log[..i])
    {
      StoredOneMore(log, i, file);
      file := file + U64(log[i].loc) + U64(|log[i].data|);
      if log[i].data == [] {
        return false, file;
      }
      file := file + log[i].data;
      i := i + 1;
    }
    return true, file;
  }

  lemma NoEntries(log: seq<Saved>)
    ensures EntriesBytes(log[..0]) == [] && log[..|log|] == log
  {
  }

  // What fread finds next in the file, and what it leaves: an entry, if there are bytes enough and
  // the entry is not empty.
  function ReadEntry(file: seq<byte>): Option<(Saved, seq<byte>)> {
    if |file| < 16 then None
    else
      var count := Number(file[8..16]);
      if count == 0 || 16 + count > |file| then None
      else Some((Saved(file[16..16 + count], Number(file[..8])), file[16 + count..]))
  }

  function ReadEntries(file: seq<byte>, n: nat): (r: Option<seq<Saved>>)
    ensures r.Some? ==> |r.value| == n
    decreases n
  {
    if n == 0 then Some([])
    else
      var e := ReadEntry(file);
      if e == None then None
      else
        var rest := ReadEntries(e.value.1, n - 1);
        if rest == None then None else Some([e.value.0] + rest.value)
  }

  function LogIn(file: seq<byte>): (r: Option<seq<Saved>>)
    ensures r.Some? ==> |r.value| <= UNINSTALL_DATA_MAX
  {
    if |file| < 8 || Number(file[..8]) > UNINSTALL_DATA_MAX then None
    else ReadEntries(file[8..], Number(file[..8]))
  }

  // What is read has 64-bit locations.
  lemma {:induction false} EntriesInWords(file: seq<byte>, n: nat)
    ensures var r := ReadEntries(file, n);
      r.Some? ==> forall i :: 0 <= i < |r.value| ==> r.value[i].loc < WORDS
    decreases n
  {
    hide Number;
    if n > 0 {
      var e := ReadEntry(file);
      if e.Some? {
        NumberBelow(file[..8]);
        Pow256Of8();
        EntriesInWords(e.value.1, n - 1);
      }
    }
  }

  lemma LogInWords(file: seq<byte>)
    ensures LogIn(file).Some? ==> forall i :: 0 <= i < |LogIn(file).value| ==> LogIn(file).value[i].loc < WORDS
  {
    hide ReadEntries;
    if |file| >= 8 {
      EntriesInWords(file[8..], Number(file[..8]));
    }
  }

  lemma Halves<T>(a: seq<T>, b: seq<T>)
    ensures (a + b)[..|a|] == a && (a + b)[|a|..] == b
  {
  }

  lemma FieldsOf<T>(loc: seq<T>, count: seq<T>, data: seq<T>, after: seq<T>)
    requires |loc| == |count| == 8
    ensures var file := loc + count + data + after;
      && file[..8] == loc && file[8..16] == count
      && file[16..16 + |data|] == data && file[16 + |data|..] == after
  {
    Halves(loc, count + data + after);
    Halves(loc + count, data + after);
    Halves(loc + count + data, after);
    assert loc + count + data + after == loc + (count + data + after);
    assert loc + count + data + after == (loc + count) + (data + after);
  }

  lemma EntryFound(e: Saved, after: seq<byte>)
    requires 0 < |e.data| < WORDS && e.loc < WORDS
    ensures ReadEntry(EntryBytes(e) + after) == Some((e, after))
  {
    NumberOfU64(e.loc);
    NumberOfU64(|e.data|);
    hide U64, Number;
    FieldsOf(U64(e.loc), U64(|e.data|), e.data, after);
  }

  lemma {:induction false} EntriesFound(log: seq<Saved>, after: seq<byte>)
    requires forall i :: 0 <= i < |log| ==> 0 < |log[i].data| < WORDS && log[i].loc < WORDS
    ensures ReadEntries(EntriesBytes(log) + after, |log|) == Some(log)
    decreases |log|
  {
    hide EntryBytes, ReadEntry;
    if log != [] {
      var rest := EntriesBytes(log[1..]) + after;
      assert EntriesBytes(log) + after == EntryBytes(log[0]) + rest;
      EntryFound(log[0], rest);
      EntriesFound(log[1..], after);
      assert |log[1..]| == |log| - 1 && [log[0]] + log[1..] == log;
    }
  }

  // What was stored is found again, also when other bytes follow in the file.
  lemma LogRoundTrip(log: seq<Saved>, after: seq<byte>)
    requires Storable(log)
    ensures LogIn(FileOf(log) + after) == Some(log)
  {
    NumberOfU64(|log|);
    EntriesFound(log, after);
    hide U64, Number, EntriesBytes, ReadEntries;
    Halves(U64(|log|), EntriesBytes(log) + after);
    assert FileOf(log) + after == U64(|log|) + (EntriesBytes(log) + after);
  }

  // The bytes of a word, least significant first
  lemma {:induction false} ByteOf(n: nat, k: nat, i: nat)
    requires i < k
    ensures LowBytes(n, k)[i] as nat == n / Pow256(i) % 256
    decreases k
  {
    if i > 0 {
      ByteOf(n / 256, k - 1, i - 1);
      DivTwice(n, Pow256(i - 1));
    }
  }

  lemma DivTwice(n: nat, p: nat)
    requires p > 0
    ensures n / 256 / p == n / (256 * p)
  {
    var q := n / 256 / p;
    DivMod(n / 256, p);
    var r := n / 256 % p;
    assert n == (q * p + r) * 256 + n % 256;
    assert (q * p + r) * 256 == q * (256 * p) + r * 256;
    MulStep(r, p, 256);
    DivUnique(n, q, r * 256 + n % 256, 256 * p);
  }

  // Where the bytes of entry i begin
  function Offset(log: seq<Saved>, i: nat): nat
    requires i <= |log|
  {
    if i == 0 then 8 else Offset(log, i - 1) + 16 + |log[i - 1].data|
  }

  lemma {:induction false} EntriesUpTo(log: seq<Saved>, i: nat)
    requires i <= |log|
    ensures |EntriesBytes(log[..i])| + 8 == Offset(log, i)
    decreases i
  {
    hide EntriesBytes, U64;
    NoEntries(log);
    if i > 0 {
      EntriesUpTo(log, i - 1);
      assert log[..i] == log[..i - 1] + [log[i - 1]];
      EntriesAppend(log[..i - 1], log[i - 1]);
    }
  }

  lemma {:induction false} EntriesSplit(log: seq<Saved>, i: nat)
    requires i <= |log|
    ensures EntriesBytes(log) == EntriesBytes(log[..i]) + EntriesBytes(log[i..])
    decreases i
  {
    hide EntriesBytes, EntryBytes;
    NoEntries(log);
    if i == 0 {
      assert log[0..] == log;
    } else {
      EntriesSplit(log[1..], i - 1);
      EntriesFirst(log);
      EntriesFirst(log[..i]);
      WithoutFirst(log, i);
      Associates(EntryBytes(log[0]), EntriesBytes(log[1..][..i - 1]), EntriesBytes(log[i..]));
    }
  }

  lemma WithoutFirst(log: seq<Saved>, i: nat)
    requires 0 < i <= |log|
    ensures log[1..][..i - 1] == log[..i][1..] && log[1..][i - 1..] == log[i..] && log[..i][0] == log[0]
  {
  }

  lemma Associates<T>(a: seq<T>, b: seq<T>, c: seq<T>)
    ensures a + (b + c) == a + b + c
  {
  }

  lemma EntriesFirst(log: seq<Saved>)
    requires log != []
    ensures EntriesBytes(log) == EntryBytes(log[0]) + EntriesBytes(log[1..])
  {
  }

  // Entry i begins at its offset.
  lemma EntryAt(log: seq<Saved>, i: nat) returns (before: seq<byte>, after: seq<byte>)
    requires i < |log|
    ensures FileOf(log) == before + EntryBytes(log[i]) + after && |before| == Offset(log, i) && |before| >= 8
    ensures before[..8] == U64(|log|)
  {
    hide U64, EntriesBytes, EntryBytes;
    EntriesUpTo(log, i);
    EntriesSplit(log, i);
    EntriesFirst(log[i..]);
    before, after := U64(|log|) + EntriesBytes(log[..i]), EntriesBytes(log[i..][1..]);
    Halves(U64(|log|), EntriesBytes(log[..i]));
    assert U64(|log|) + (EntriesBytes(log[..i]) + (EntryBytes(log[i]) + after)) == before + EntryBytes(log[i]) + after;
  }

  lemma FieldsAt(before: seq<byte>, e: Saved, after: seq<byte>)
    ensures var file, at, n := before + EntryBytes(e) + after, |before|, |e.data|;
      && |file| >= at + 16 + n && file[..at] == before
      && file[at..at + 8] == U64(e.loc) && file[at + 8..at + 16] == U64(n)
      && file[at + 16..at + 16 + n] == e.data
  {
    hide U64;
  }

  // The file field by field: the number of entries, and the location, the length and the bytes of each.
  lemma FileFields(log: seq<Saved>, i: nat)
    requires i < |log|
    ensures var file, at, n := FileOf(log), Offset(log, i), |log[i].data|;
      && at + 16 + n <= |file| == Offset(log, |log|)
      && file[..8] == U64(|log|)
      && file[at..at + 8] == U64(log[i].loc) && file[at + 8..at + 16] == U64(n)
      && file[at + 16..at + 16 + n] == log[i].data
  {
    hide U64, EntriesBytes, EntryBytes, Offset;
    EntriesUpTo(log, |log|);
    assert log[..|log|] == log;
    var before, after := EntryAt(log, i);
    FieldsAt(before, log[i], after);
    assert FileOf(log)[..8] == before[..8];
  }

  lemma NumberStep(s: seq<byte>)
    requires s != []
    ensures Number(s) % 256 == s[0] as nat && Number(s) / 256 == Number(s[1..])
  {
  }

  lemma {:induction false} BytesOfNumber(s: seq<byte>)
    ensures LowBytes(Number(s), |s|) == s
    decreases |s|
  {
    if s != [] {
      NumberStep(s);
      hide Number;
      BytesOfNumber(s[1..]);
      assert s == [s[0]] + s[1..];
    }
  }

  lemma WordThere(s: seq<byte>)
    requires |s| == 8
    ensures U64(Number(s)) == s && Number(s) < WORDS
  {
    BytesOfNumber(s);
    NumberBelow(s);
    Pow256Of8();
  }

  lemma FourParts<T>(file: seq<T>, n: nat)
    requires 16 + n <= |file|
    ensures file == file[..8] + file[8..16] + file[16..16 + n] + file[16 + n..]
  {
  }

  lemma EntryThere(file: seq<byte>)
    requires ReadEntry(file).Some?
    ensures var (e, rest) := ReadEntry(file).value;
      file == EntryBytes(e) + rest && 0 < |e.data| < WORDS && e.loc < WORDS
  {
    hide Number, U64;
    WordThere(file[..8]);
    WordThere(file[8..16]);
    FourParts(file, Number(file[8..16]));
  }

  lemma {:induction false} EntriesThere(file: seq<byte>, n: nat)
    requires ReadEntries(file, n).Some?
    ensures var log := ReadEntries(file, n).value;
      && EntriesBytes(log) <= file
      && forall i :: 0 <= i < |log| ==> 0 < |log[i].data| < WORDS && log[i].loc < WORDS
    decreases n
  {
    hide ReadEntry, EntryBytes;
    if n > 0 {
      var (e, rest) := ReadEntry(file).value;
      EntryThere(file);
      EntriesThere(rest, n - 1);
      var log := ReadEntries(file, n).value;
      assert log[0] == e && log[1..] == ReadEntries(rest, n - 1).value;
      EntriesFirst(log);
      PrefixBehind(EntryBytes(e), EntriesBytes(log[1..]), rest);
    }
  }

  lemma PrefixBehind<T>(a: seq<T>, b: seq<T>, c: seq<T>)
    requires b <= c
    ensures a + b <= a + c
  {
  }

  lemma LogThere(file: seq<byte>, log: seq<Saved>)
    requires LogIn(file) == Some(log)
    ensures Storable(log) && FileOf(log) <= file
  {
    BytesOfNumber(file[..8]);
    hide EntriesBytes, Number, LowBytes;
    EntriesThere(file[8..], Number(file[..8]));
    hide ReadEntries;
    assert file == file[..8] + file[8..];
    PrefixBehind(file[..8], EntriesBytes(log), file[8..]);
  }

  // A log is loaded if and only if it can be stored, and the file begins with what storing it writes.
  lemma LogInIff(file: seq<byte>, log: seq<Saved>)
    ensures LogIn(file) == Some(log) <==> Storable(log) && FileOf(log) <= file
  {
    hide LogIn, Storable, FileOf;
    if LogIn(file) == Some(log) {
      LogThere(file, log);
    }
    if Storable(log) && FileOf(log) <= file {
      LogRoundTrip(log, file[|FileOf(log)|..]);
      assert file == FileOf(log) + file[|FileOf(log)|..];
    }
  }

  // load_uninstall_data
  method Load(file: seq<byte>) returns (r: Option<seq<Saved>>)
    ensures r == LogIn(file)
  {
    hide ReadEntry, Number;
    if |file| < 8 {
      return None;
    }
    var n := Number(file[..8]);
    if n > UNINSTALL_DATA_MAX {
      return None;
    }
    var log, left, i := [], file[8..], 0;
    AfterEnds(ReadEntries(left, n), log);
    while i < n
      invariant 0 <= i <= n
      invariant LogIn(file) == After(log, ReadEntries(left, n - i))
    {
      var e := ReadEntry(left);
      if e == None {
        return None;
      }
      AfterOneMore(log, e.value.0, ReadEntries(e.value.1, n - i - 1));
      log := log + [e.value.0];
      left := e.value.1;
      i := i + 1;
    }
    AfterEnds(None, log);
    return Some(log);
  }

  function After(log: seq<Saved>, rest: Option<seq<Saved>>): Option<seq<Saved>> {
    if rest == None then None else Some(log + rest.value)
  }

  lemma AfterEnds(rest: Option<seq<Saved>>, log: seq<Saved>)
    ensures After([], rest) == rest && After(log, Some([])) == Some(log)
  {
    assert log + [] == log;
    assert rest.Some? ==> [] + rest.value == rest.value;
  }

  lemma AfterOneMore(log: seq<Saved>, e: Saved, rest: Option<seq<Saved>>)
    ensures After(log + [e], rest) == After(log, if rest == None then None else Some([e] + rest.value))
  {
    if rest.Some? {
      assert log + ([e] + rest.value) == (log + [e]) + rest.value;
    }
  }
}
