/**
 The dictionary of func_libs/fx_dict.h: an array of keys and values, which are looked up one by one,
 and from which an entry is removed by moving the last one to its place. An empty dictionary stands
 for the null pointer, too.
 */
module Dictionary {
  import opened Wrappers

  type CString = s: string | '\0' !in s

  datatype Entry = Entry(key: CString, value: CString)

  datatype Flags = Flags(matchCase: bool, ignoreSuffix: bool, dontOverwrite: bool, append: bool, multikey: bool)

  // ----- looking up -----

  /** Reading a C string, where the index may be that of the terminator. */
  function At(s: CString, i: int): char
    requires 0 <= i <= |s|
  {
    if i < |s| then s[i] else '\0'
  }

  /** fx_toupper */
  function Upper(c: char): char {
    if 'a' <= c <= 'z' then (c as int - 32) as char else c
  }

  predicate SameChar(c: char, d: char, matchCase: bool) {
    if matchCase then c == d else Upper(c) == Upper(d)
  }

  /** The first n characters agree. */
  predicate SameStart(s: string, t: string, n: int, matchCase: bool) {
    0 <= n <= |s| && n <= |t| && forall j | 0 <= j < n :: SameChar(s[j], t[j], matchCase)
  }

  predicate SameKey(s: string, t: string, matchCase: bool) {
    |s| == |t| && SameStart(s, t, |t|, matchCase)
  }

  /** The key s is found for `key`. */
  predicate Matches(s: string, key: string, flags: Flags) {
    SameStart(s, key, |key|, flags.matchCase) && (flags.ignoreSuffix || |s| == |key|)
  }

  /** A letter and its capital. */
  predicate IsCapitalOf(d: char, c: char) {
    'a' <= c <= 'z' && d as int == c as int - 32
  }

  lemma UpToCase(c: char, d: char)
    ensures SameChar(c, d, false) <==> c == d || IsCapitalOf(c, d) || IsCapitalOf(d, c)
  {
  }

  /** Keys that are compared exactly match as a whole, or as a prefix. */
  lemma ExactMatch(s: string, key: string, flags: Flags)
    requires flags.matchCase
    ensures Matches(s, key, flags) <==> key <= s && (flags.ignoreSuffix || |s| == |key|)
  {
  }

  /** Otherwise they may differ in the case of letters. */
  lemma MatchUpToCase(s: string, key: string, flags: Flags)
    requires !flags.matchCase
    ensures Matches(s, key, flags) <==>
              && |key| <= |s| && (flags.ignoreSuffix || |s| == |key|)
              && forall j | 0 <= j < |key| :: s[j] == key[j] || IsCapitalOf(s[j], key[j]) || IsCapitalOf(key[j], s[j])
  {
    forall j | 0 <= j < |key| && |key| <= |s|
      ensures SameChar(s[j], key[j], false) <==> s[j] == key[j] || IsCapitalOf(s[j], key[j]) || IsCapitalOf(key[j], s[j])
    {
      UpToCase(s[j], key[j]);
    }
    hide SameChar, IsCapitalOf;
  }

  /** The loop over the characters of a key. */
  method KeyMatches(s: CString, key: CString, flags: Flags) returns (found: bool)
    ensures found <==> Matches(s, key, flags)
  {
    var j := 0;
    while SameChar(At(s, j), At(key, j), flags.matchCase) && At(key, j) != '\0'
      invariant SameStart(s, key, j, flags.matchCase)
      decreases |key| - j
    {
      j := j + 1;
    }
    found := !(At(key, j) != '\0') && !(At(s, j) != '\0' && !flags.ignoreSuffix);
  }

  /** The index of the first match from i on, or the number of entries. */
  function Find(elems: seq<Entry>, key: string, i: int, flags: Flags): (k: int)
    requires 0 <= i <= |elems|
    ensures i <= k <= |elems|
    ensures k < |elems| ==> Matches(elems[k].key, key, flags)
    ensures forall j | i <= j < k :: !Matches(elems[j].key, key, flags)
    decreases |elems| - i
  {
    if i == |elems| || Matches(elems[i].key, key, flags) then i else Find(elems, key, i + 1, flags)
  }

  /** fx_dict_get, behind the entry `prev` (-1 for none) */
  method Get(elems: seq<Entry>, key: CString, prev: int, flags: Flags) returns (k: int)
    requires -1 <= prev < |elems|
    ensures k == Find(elems, key, prev + 1, flags)
  {
    k := prev + 1;
    while k < |elems|
      invariant prev < k <= |elems| && Find(elems, key, k, flags) == Find(elems, key, prev + 1, flags)
    {
      var found := KeyMatches(elems[k].key, key, flags);
      if found {
        return;
      }
      k := k + 1;
    }
  }

  // ----- setting -----

  /** The last entry takes the place of entry i. */
  function WithoutAt(elems: seq<Entry>, i: int): (r: seq<Entry>)
    requires 0 <= i < |elems|
  {
    elems[i := elems[|elems| - 1]][..|elems| - 1]
  }

  /** The value that is stored. */
  function Stored(previous: Option<CString>, value: CString, flags: Flags): CString {
    if previous.Some? && flags.append then previous.value + value else value
  }

  /** Whether a set finds memory for the copies and the new entry, and for the joined value. */
  datatype Memory = Memory(copies: bool, joins: bool)

  class AVDictionary {
    var elems: seq<Entry>

    constructor ()
      ensures elems == []
    {
      elems := [];
    }

    /** fx_dict_set; a value of None deletes. */
    method Set(key: CString, value: Option<CString>, flags: Flags, memory: Memory) returns (r: int)
      modifies this
      ensures r == if Fails(old(elems), key, value, flags, memory) then -1 else 0
      ensures r == 0 ==> elems == AfterSet(old(elems), key, value, flags)
      ensures r == -1 ==> elems == AfterFailure(old(elems), key, value, flags, memory)
    {
      var tag := |elems|;
      if !flags.multikey {
        tag := Get(elems, key, -1, flags);
      }
      if !memory.copies {
        return -1;
      }
      var previous: Option<CString> := None;
      if tag < |elems| {
        if flags.dontOverwrite {
          return 0;
        }
        if flags.append {
          previous := Some(elems[tag].value);
        }
        elems := WithoutAt(elems, tag);
      }
      if value.Some? {
        if previous.Some? && flags.append && !memory.joins {
          return -1;
        }
        elems := elems + [Entry(key, Stored(previous, value.value, flags))];
      }
      return 0;
    }
  }

  /** The entry that a set replaces, or the number of entries. */
  function Tag(elems: seq<Entry>, key: CString, flags: Flags): int {
    if flags.multikey then |elems| else Find(elems, key, 0, flags)
  }

  /** The set appends to a value. */
  predicate Joins(elems: seq<Entry>, key: CString, value: Option<CString>, flags: Flags) {
    Tag(elems, key, flags) < |elems| && !flags.dontOverwrite && flags.append && value.Some?
  }

  predicate Fails(elems: seq<Entry>, key: CString, value: Option<CString>, flags: Flags, memory: Memory) {
    !memory.copies || (!memory.joins && Joins(elems, key, value, flags))
  }

  /** The entries after a failure: the entry whose value was to be joined is lost. */
  function AfterFailure(elems: seq<Entry>, key: CString, value: Option<CString>, flags: Flags, memory: Memory): seq<Entry>
    requires Fails(elems, key, value, flags, memory)
  {
    if memory.copies then WithoutAt(elems, Tag(elems, key, flags)) else elems
  }

  /** The entries after a successful set */
  function AfterSet(elems: seq<Entry>, key: CString, value: Option<CString>, flags: Flags): seq<Entry> {
    var tag := Tag(elems, key, flags);
    if tag < |elems| && flags.dontOverwrite then elems
    else
      var previous := if tag < |elems| then Some(elems[tag].value) else None;
      var rest := if tag < |elems| then WithoutAt(elems, tag) else elems;
      if value.Some? then rest + [Entry(key, Stored(previous, value.value, flags))] else rest
  }

  // ----- a dictionary is a map -----

  /** Flags under which keys are compared as a whole, and not kept twice. */
  predicate IsMapFlags(flags: Flags) {
    !flags.ignoreSuffix && !flags.multikey
  }

  /** No two keys are the same. */
  ghost predicate Unique(elems: seq<Entry>, matchCase: bool) {
    forall i, j | 0 <= i < j < |elems| :: !SameKey(elems[i].key, elems[j].key, matchCase)
  }

  /** The value of a key */
  function Lookup(elems: seq<Entry>, key: string, flags: Flags): Option<CString> {
    var k := Find(elems, key, 0, flags);
    if k < |elems| then Some(elems[k].value) else None
  }

  /** What a set makes of the value of its key. */
  function Updated(before: Option<CString>, value: Option<CString>, flags: Flags): Option<CString> {
    if before.Some? && flags.dontOverwrite then before
    else if value.Some? then Some(Stored(before, value.value, flags))
    else None
  }

  lemma SameKeyEuclidean(s: string, t: string, u: string, matchCase: bool)
    requires SameKey(s, t, matchCase)
    ensures SameKey(s, u, matchCase) <==> SameKey(t, u, matchCase)
  {
  }

  lemma SameKeySymmetric(s: string, t: string, matchCase: bool)
    ensures SameKey(s, t, matchCase) <==> SameKey(t, s, matchCase)
  {
  }

  /** In a dictionary without duplicates no two entries match. */
  lemma NotBoth(elems: seq<Entry>, key: string, i: int, j: int, matchCase: bool)
    requires Unique(elems, matchCase) && 0 <= i < |elems| && 0 <= j < |elems| && i != j
    requires SameKey(elems[i].key, key, matchCase)
    ensures !SameKey(elems[j].key, key, matchCase)
  {
    SameKeySymmetric(elems[i].key, elems[j].key, matchCase);
    SameKeySymmetric(elems[i].key, key, matchCase);
    SameKeySymmetric(elems[j].key, key, matchCase);
    SameKeyEuclidean(elems[i].key, key, elems[j].key, matchCase);
  }

  /** Any entry that matches is the one that is found. */
  lemma FoundIsOnly(elems: seq<Entry>, key: string, k: int, flags: Flags)
    requires Unique(elems, flags.matchCase) && IsMapFlags(flags) && 0 <= k < |elems| && SameKey(elems[k].key, key, flags.matchCase)
    ensures Find(elems, key, 0, flags) == k
  {
    forall j | 0 <= j < |elems| && j != k
      ensures !Matches(elems[j].key, key, flags)
    {
      NotBoth(elems, key, k, j, flags.matchCase);
    }
  }

  /** The index in elems of entry j of WithoutAt(elems, i). */
  function Origin(elems: seq<Entry>, i: int, j: int): int {
    if j == i then |elems| - 1 else j
  }

  lemma WithoutUnique(elems: seq<Entry>, i: int, matchCase: bool)
    requires Unique(elems, matchCase) && 0 <= i < |elems|
    ensures Unique(WithoutAt(elems, i), matchCase)
  {
    var r := WithoutAt(elems, i);
    forall x, y | 0 <= x < y < |r|
      ensures !SameKey(r[x].key, r[y].key, matchCase)
    {
      var p, q := Origin(elems, i, x), Origin(elems, i, y);
      assert r[x] == elems[p] && r[y] == elems[q] && p != q;
      SameKeySymmetric(elems[p].key, elems[q].key, matchCase);
    }
  }

  lemma NoneFound(elems: seq<Entry>, key: string, flags: Flags)
    requires forall j | 0 <= j < |elems| :: !Matches(elems[j].key, key, flags)
    ensures Find(elems, key, 0, flags) == |elems|
  {
  }

  /** Removing an entry removes the value of its key and of no other. */
  lemma WithoutLookup(elems: seq<Entry>, i: int, key: string, flags: Flags)
    requires Unique(elems, flags.matchCase) && IsMapFlags(flags) && 0 <= i < |elems|
    ensures Lookup(WithoutAt(elems, i), key, flags) ==
            if SameKey(elems[i].key, key, flags.matchCase) then None else Lookup(elems, key, flags)
  {
    var r, f := WithoutAt(elems, i), Find(elems, key, 0, flags);
    assert forall j | 0 <= j < |r| :: r[j] == elems[Origin(elems, i, j)];
    if f == |elems| {
      NoneFound(r, key, flags);
    } else if f == i {
      forall j | 0 <= j < |r|
        ensures !Matches(r[j].key, key, flags)
      {
        NotBoth(elems, key, i, Origin(elems, i, j), flags.matchCase);
      }
      NoneFound(r, key, flags);
    } else {
      WithoutUnique(elems, i, flags.matchCase);
      NotBoth(elems, key, f, i, flags.matchCase);
      FoundIsOnly(r, key, if f == |elems| - 1 then i else f, flags);
    }
  }

  lemma {:induction false} FindAppend(elems: seq<Entry>, e: Entry, key: string, i: int, flags: Flags)
    requires 0 <= i <= |elems|
    ensures var k := Find(elems, key, i, flags);
            Find(elems + [e], key, i, flags) == if k < |elems| || Matches(e.key, key, flags) then k else |elems| + 1
    decreases |elems| - i
  {
    if i < |elems| && !Matches(elems[i].key, key, flags) {
      FindAppend(elems, e, key, i + 1, flags);
    }
  }

  lemma AppendUnique(elems: seq<Entry>, e: Entry, flags: Flags)
    requires Unique(elems, flags.matchCase) && IsMapFlags(flags) && Lookup(elems, e.key, flags) == None
    ensures Unique(elems + [e], flags.matchCase)
  {
  }

  lemma AppendLookup(elems: seq<Entry>, e: Entry, key: string, flags: Flags)
    requires IsMapFlags(flags) && Lookup(elems, e.key, flags) == None
    ensures Lookup(elems + [e], key, flags) == if SameKey(e.key, key, flags.matchCase) then Some(e.value) else Lookup(elems, key, flags)
  {
    FindAppend(elems, e, key, 0, flags);
    if SameKey(e.key, key, flags.matchCase) {
      forall j | 0 <= j < |elems|
        ensures !Matches(elems[j].key, key, flags)
      {
        SameKeySymmetric(elems[j].key, e.key, flags.matchCase);
        SameKeySymmetric(elems[j].key, key, flags.matchCase);
        SameKeyEuclidean(e.key, key, elems[j].key, flags.matchCase);
      }
      NoneFound(elems, key, flags);
    }
  }

  /** The entries once the replaced one is gone. */
  function Remaining(elems: seq<Entry>, key: CString, flags: Flags): seq<Entry> {
    var tag := Tag(elems, key, flags);
    if tag < |elems| then WithoutAt(elems, tag) else elems
  }

  lemma RemainingLookup(elems: seq<Entry>, key: CString, key': string, flags: Flags)
    requires Unique(elems, flags.matchCase) && IsMapFlags(flags)
    ensures Unique(Remaining(elems, key, flags), flags.matchCase)
    ensures Lookup(Remaining(elems, key, flags), key', flags) ==
            if SameKey(key, key', flags.matchCase) then None else Lookup(elems, key', flags)
  {
    var tag := Tag(elems, key, flags);
    if tag < |elems| {
      WithoutUnique(elems, tag, flags.matchCase);
      WithoutLookup(elems, tag, key', flags);
      SameKeyEuclidean(elems[tag].key, key, key', flags.matchCase);
    } else if SameKey(key, key', flags.matchCase) {
      forall j | 0 <= j < |elems|
        ensures !Matches(elems[j].key, key', flags)
      {
        SameKeySymmetric(elems[j].key, key, flags.matchCase);
        SameKeySymmetric(elems[j].key, key', flags.matchCase);
        SameKeyEuclidean(key, key', elems[j].key, flags.matchCase);
      }
      NoneFound(elems, key', flags);
    }
  }

  /** Used with whole keys, the dictionary is a map from keys, up to case if that is how they are
      compared: a set changes the value of its own key, in the way its flags say, and of no other key. */
  lemma SetIsUpdate(elems: seq<Entry>, key: CString, value: Option<CString>, key': string, flags: Flags)
    requires Unique(elems, flags.matchCase) && IsMapFlags(flags)
    ensures Unique(AfterSet(elems, key, value, flags), flags.matchCase)
    ensures Lookup(AfterSet(elems, key, value, flags), key', flags) ==
            if SameKey(key, key', flags.matchCase) then Updated(Lookup(elems, key, flags), value, flags) else Lookup(elems, key', flags)
  {
    var tag, rest := Tag(elems, key, flags), Remaining(elems, key, flags);
    if tag < |elems| && flags.dontOverwrite {
      if SameKey(key, key', flags.matchCase) {
        SameKeyEuclidean(key, key', elems[tag].key, flags.matchCase);
        SameKeySymmetric(elems[tag].key, key, flags.matchCase);
        SameKeySymmetric(elems[tag].key, key', flags.matchCase);
        FoundIsOnly(elems, key', tag, flags);
      }
    } else {
      RemainingLookup(elems, key, key', flags);
      RemainingLookup(elems, key, key, flags);
      if value.Some? {
        var e := Entry(key, Stored(Lookup(elems, key, flags), value.value, flags));
        AppendUnique(rest, e, flags);
        AppendLookup(rest, e, key', flags);
      }
    }
  }

  /** A key that is set twice: its first value stays, is replaced, or goes on with the second. */
  lemma SetTwice(elems: seq<Entry>, key: CString, first: CString, second: CString, flags: Flags)
    requires Unique(elems, flags.matchCase) && IsMapFlags(flags) && Lookup(elems, key, flags) == None
    ensures var once := AfterSet(elems, key, Some(first), flags);
            Lookup(AfterSet(once, key, Some(second), flags), key, flags) ==
            Some(if flags.dontOverwrite then first else if flags.append then first + second else second)
  {
    SetIsUpdate(elems, key, Some(first), key, flags);
    SetIsUpdate(AfterSet(elems, key, Some(first), flags), key, Some(second), key, flags);
    hide AfterSet;
    assert SameKey(key, key, flags.matchCase);
  }

  /** The values of all the entries that match, in order. */
  function ValuesOf(elems: seq<Entry>, key: string, flags: Flags): seq<CString> {
    if elems == [] then []
    else
      var n := |elems| - 1;
      ValuesOf(elems[..n], key, flags) + if Matches(elems[n].key, key, flags) then [elems[n].value] else []
  }

  /** With several entries for a key, a set adds one behind them and touches none. */
  lemma SetAddsValue(elems: seq<Entry>, key: CString, value: CString, key': string, flags: Flags)
    requires flags.multikey
    ensures ValuesOf(AfterSet(elems, key, Some(value), flags), key', flags) ==
            ValuesOf(elems, key', flags) + if Matches(key, key', flags) then [value] else []
  {
    var after := AfterSet(elems, key, Some(value), flags);
    assert after == elems + [Entry(key, value)];
    assert after[..|after| - 1] == elems;
  }

  // ----- copying -----

  const EVERY := Flags(false, true, false, false, false)

  /** The iteration with the empty key goes through all the entries. */
  lemma EveryEntry(elems: seq<Entry>, i: int)
    requires 0 <= i <= |elems|
    ensures Find(elems, "", i, EVERY) == i
  {
  }

  /** The entries of dst after those of src from i to j have been set in it. */
  function Copied(dst: seq<Entry>, src: seq<Entry>, j: nat, flags: Flags): seq<Entry>
    requires j <= |src|
  {
    if j == 0 then dst
    else AfterSet(Copied(dst, src, j - 1, flags), src[j - 1].key, Some(src[j - 1].value), flags)
  }

  /** The set of entry j of src fails. */
  predicate FailsAt(dst: seq<Entry>, src: seq<Entry>, j: nat, flags: Flags, memory: seq<Memory>)
    requires j < |src| <= |memory|
  {
    Fails(Copied(dst, src, j, flags), src[j].key, Some(src[j].value), flags, memory[j])
  }

  /** The entries after the failure of entry j. */
  function AfterFailureAt(dst: seq<Entry>, src: seq<Entry>, j: nat, flags: Flags, memory: seq<Memory>): seq<Entry>
    requires j < |src| <= |memory| && FailsAt(dst, src, j, flags, memory)
  {
    AfterFailure(Copied(dst, src, j, flags), src[j].key, Some(src[j].value), flags, memory[j])
  }

  /** The sets of the first n entries of src succeed. */
  ghost predicate Succeeds(dst: seq<Entry>, src: seq<Entry>, n: nat, flags: Flags, memory: seq<Memory>)
    requires n <= |src| <= |memory|
  {
    forall j: nat | j < n :: !FailsAt(dst, src, j, flags, memory)
  }

  lemma SucceedsOn(dst: seq<Entry>, src: seq<Entry>, n: nat, flags: Flags, memory: seq<Memory>)
    requires n < |src| <= |memory| && Succeeds(dst, src, n, flags, memory) && !FailsAt(dst, src, n, flags, memory)
    ensures Succeeds(dst, src, n + 1, flags, memory)
  {
    hide FailsAt;
  }

  /** The body of the loop */
  method CopyEntry(dst: AVDictionary, ghost before: seq<Entry>, src: seq<Entry>, t: nat, flags: Flags, memory: seq<Memory>)
      returns (r: int)
    requires t < |src| <= |memory| && dst.elems == Copied(before, src, t, flags)
    modifies dst
    ensures r == if FailsAt(before, src, t, flags, memory) then -1 else 0
    ensures r == 0 ==> dst.elems == Copied(before, src, t + 1, flags)
    ensures r == -1 ==> dst.elems == AfterFailureAt(before, src, t, flags, memory)
  {
    hide AfterSet, AfterFailure, Fails;
    r := dst.Set(src[t].key, Some(src[t].value), flags, memory[t]);
  }

  /** fx_dict_copy: up to the first entry that cannot be set, whose failure is returned; the n entries
      before it are copied. */
  method Copy(dst: AVDictionary, src: AVDictionary, flags: Flags, memory: seq<Memory>) returns (r: int, ghost n: nat)
    requires dst != src && |memory| == |src.elems|
    modifies dst
    ensures n <= |src.elems| && Succeeds(old(dst.elems), src.elems, n, flags, memory)
    ensures r == if n == |src.elems| then 0 else -1
    ensures n == |src.elems| ==> dst.elems == Copied(old(dst.elems), src.elems, n, flags)
    ensures n < |src.elems| ==>
              && FailsAt(old(dst.elems), src.elems, n, flags, memory)
              && dst.elems == AfterFailureAt(old(dst.elems), src.elems, n, flags, memory)
  {
    ghost var before := dst.elems;
    var elems := src.elems;
    EveryEntry(elems, 0);
    var t := Get(elems, "", -1, EVERY);
    assert before == Copied(before, elems, 0, flags) && Succeeds(before, elems, 0, flags, memory);
    hide *;
    while t < |elems|
      invariant 0 <= t <= |elems| && dst.elems == Copied(before, elems, t, flags)
      invariant Succeeds(before, elems, t, flags, memory)
    {
      r := CopyEntry(dst, before, elems, t, flags, memory);
      if r < 0 {
        n := t;
        return;
      }
      SucceedsOn(before, elems, t, flags, memory);
      EveryEntry(elems, t + 1);
      t := Get(elems, "", t, EVERY);
    }
    r, n := 0, t;
  }

  /** After a copy without flags that join or keep values, the keys of the source have the values that
      they have there, and the others have kept theirs. */
  lemma {:induction false} CopyOverrides(dst: seq<Entry>, src: seq<Entry>, j: nat, key: string, flags: Flags)
    requires j <= |src| && IsMapFlags(flags) && !flags.append && !flags.dontOverwrite
    requires Unique(dst, flags.matchCase) && Unique(src, flags.matchCase)
    ensures Unique(Copied(dst, src, j, flags), flags.matchCase)
    ensures Lookup(Copied(dst, src, j, flags), key, flags) ==
            if Find(src, key, 0, flags) < j then Lookup(src, key, flags) else Lookup(dst, key, flags)
  {
    hide AfterSet, SameStart;
    if j > 0 {
      var e := src[j - 1];
      CopyOverrides(dst, src, j - 1, key, flags);
      SetIsUpdate(Copied(dst, src, j - 1, flags), e.key, Some(e.value), key, flags);
      if SameKey(e.key, key, flags.matchCase) {
        FoundIsOnly(src, key, j - 1, flags);
      }
    }
  }

  // ----- the dictionary as a string -----

  const WHITESPACES := " \n\t\r"

  datatype Separators = Separators(key: char, pair: char)

  /** What fx_dict_get_string accepts */
  predicate AreSeparators(s: Separators) {
    s.pair != '\0' && s.key != '\0' && s.pair != s.key && s.pair != '\\' && s.key != '\\'
  }

  /** fx_bprint_escape puts a backslash in front of character i. */
  predicate IsEscaped(s: CString, i: int, seps: Separators)
    requires 0 <= i < |s|
  {
    var c, isFirstLast := s[i], i == 0 || i == |s| - 1;
    c == seps.pair || c == seps.key || c in "'\\" || (c in WHITESPACES && isFirstLast)
  }

  /** The characters from i on, with backslashes */
  function EscapedFrom(s: CString, i: int, seps: Separators): string
    requires 0 <= i <= |s|
    decreases |s| - i
  {
    if i == |s| then "" else (if IsEscaped(s, i, seps) then "\\" else "") + [s[i]] + EscapedFrom(s, i + 1, seps)
  }

  function Escaped(s: CString, seps: Separators): string {
    EscapedFrom(s, 0, seps)
  }

  function RenderedEntry(e: Entry, seps: Separators): string {
    Escaped(e.key, seps) + ([seps.key] + Escaped(e.value, seps))
  }

  /** The entries from i on, each after the first with a separator in front of it */
  function RenderedFrom(elems: seq<Entry>, i: int, seps: Separators): string
    requires 0 <= i <= |elems|
    decreases |elems| - i
  {
    if i == |elems| then "" else (if i > 0 then [seps.pair] else "") + RenderedEntry(elems[i], seps) + RenderedFrom(elems, i + 1, seps)
  }

  /** fx_bprint_escape in the backslash mode, without flags */
  method Escape(out: string, src: CString, seps: Separators) returns (r: string)
    ensures r == out + Escaped(src, seps)
  {
    r := out;
    var i := 0;
    while i < |src|
      invariant 0 <= i <= |src| && r + EscapedFrom(src, i, seps) == out + Escaped(src, seps)
    {
      ghost var before := r;
      if IsEscaped(src, i, seps) {
        r := r + "\\";
      }
      r := r + [src[i]];
      assert before + ((if IsEscaped(src, i, seps) then "\\" else "") + [src[i]] + EscapedFrom(src, i + 1, seps))
          == r + EscapedFrom(src, i + 1, seps);
      i := i + 1;
    }
  }

  /** fx_dict_get_string, with memory for the whole string */
  method GetString(elems: seq<Entry>, seps: Separators) returns (r: int, buffer: string)
    ensures r == 0 <==> AreSeparators(seps)
    ensures r == 0 ==> buffer == RenderedFrom(elems, 0, seps)
  {
    if !AreSeparators(seps) {
      return -1, "";
    }
    buffer := "";
    var cnt := 0;
    EveryEntry(elems, 0);
    var t := Get(elems, "", -1, EVERY);
    while t < |elems|
      invariant 0 <= t == cnt <= |elems| && buffer + RenderedFrom(elems, t, seps) == RenderedFrom(elems, 0, seps)
    {
      buffer := RenderStep(buffer, elems, t, seps);
      cnt := cnt + 1;
      EveryEntry(elems, t + 1);
      t := Get(elems, "", t, EVERY);
    }
    return 0, buffer;
  }

  /** The body of the loop */
  method RenderStep(buffer: string, elems: seq<Entry>, t: int, seps: Separators) returns (r: string)
    requires 0 <= t < |elems|
    ensures r + RenderedFrom(elems, t + 1, seps) == buffer + RenderedFrom(elems, t, seps)
  {
    var e := elems[t];
    var separated := if t > 0 then buffer + [seps.pair] else buffer;
    r := Escape(separated, e.key, seps);
    r := r + [seps.key];
    r := Escape(r, e.value, seps);
    assert r == separated + RenderedEntry(e, seps);
    assert separated == buffer + if t > 0 then [seps.pair] else "";
    assert r + RenderedFrom(elems, t + 1, seps)
        == buffer + ((if t > 0 then [seps.pair] else "") + RenderedEntry(e, seps) + RenderedFrom(elems, t + 1, seps));
  }

  // ----- the string determines the entries -----

  /** Reading up to a separator that has no backslash in front of it: what was read, and what follows */
  function ReadField(text: string, seps: Separators): (r: (string, string))
    ensures |r.1| <= |text|
  {
    if text == "" || text[0] == seps.key || text[0] == seps.pair then ("", text)
    else if text[0] == '\\' && |text| > 1 then
      var (field, rest) := ReadField(text[2..], seps);
      ([text[1]] + field, rest)
    else
      var (field, rest) := ReadField(text[1..], seps);
      ([text[0]] + field, rest)
  }

  /** Reading the fields, alternately keys and values */
  function ReadFields(text: string, seps: Separators): seq<string>
    decreases |text|
  {
    var (field, rest) := ReadField(text, seps);
    if rest == "" then [field] else [field] + ReadFields(rest[1..], seps)
  }

  predicate StartsSeparated(rest: string, seps: Separators) {
    rest == "" || rest[0] == seps.key || rest[0] == seps.pair
  }

  lemma {:induction false} ReadEscaped(s: CString, i: int, seps: Separators, rest: string)
    requires AreSeparators(seps) && 0 <= i <= |s| && StartsSeparated(rest, seps)
    ensures ReadField(EscapedFrom(s, i, seps) + rest, seps) == (s[i..], rest)
    decreases |s| - i
  {
    var text := EscapedFrom(s, i, seps) + rest;
    if i == |s| {
      assert text == rest && s[i..] == "";
    } else {
      var later := EscapedFrom(s, i + 1, seps) + rest;
      ReadEscaped(s, i + 1, seps, rest);
      if IsEscaped(s, i, seps) {
        assert text == "\\" + [s[i]] + later && text[2..] == later;
      } else {
        assert text == [s[i]] + later && text[1..] == later;
      }
      assert s[i..] == [s[i]] + s[i + 1..];
    }
  }

  /** The keys and values from i on */
  function FieldsFrom(elems: seq<Entry>, i: int): seq<string>
    requires 0 <= i <= |elems|
    decreases |elems| - i
  {
    if i == |elems| then [] else [elems[i].key, elems[i].value] + FieldsFrom(elems, i + 1)
  }

  /** The entries from i on, without the separator in front of the first of them */
  function Tail(elems: seq<Entry>, i: int, seps: Separators): string
    requires 0 <= i < |elems|
  {
    RenderedEntry(elems[i], seps) + RenderedFrom(elems, i + 1, seps)
  }

  /** A field, as it was before it was escaped, and the fields behind it. */
  lemma ReadOne(s: CString, seps: Separators, rest: string)
    requires AreSeparators(seps) && StartsSeparated(rest, seps)
    ensures ReadFields(Escaped(s, seps) + rest, seps) == [s] + (if rest == "" then [] else ReadFields(rest[1..], seps))
  {
    ReadEscaped(s, 0, seps, rest);
    hide ReadField, EscapedFrom;
    assert s[0..] == s;
  }

  lemma ReadEntry(e: Entry, seps: Separators, rest: string)
    requires AreSeparators(seps) && StartsSeparated(rest, seps)
    ensures ReadFields(RenderedEntry(e, seps) + rest, seps) ==
            [e.key, e.value] + (if rest == "" then [] else ReadFields(rest[1..], seps))
  {
    hide ReadFields, Escaped;
    var afterKey := [seps.key] + (Escaped(e.value, seps) + rest);
    assert RenderedEntry(e, seps) + rest == Escaped(e.key, seps) + afterKey;
    ReadOne(e.key, seps, afterKey);
    assert afterKey[1..] == Escaped(e.value, seps) + rest;
    ReadOne(e.value, seps, rest);
  }

  /** Reading the string gives back the keys and the values, whatever characters they contain. */
  lemma {:induction false} ReadRendered(elems: seq<Entry>, i: int, seps: Separators)
    requires AreSeparators(seps) && 0 <= i < |elems|
    ensures ReadFields(Tail(elems, i, seps), seps) == FieldsFrom(elems, i)
    decreases |elems| - i
  {
    hide ReadFields, RenderedEntry;
    var rest := RenderedFrom(elems, i + 1, seps);
    if i + 1 < |elems| {
      assert rest == [seps.pair] + Tail(elems, i + 1, seps);
      assert rest[1..] == Tail(elems, i + 1, seps);
      ReadRendered(elems, i + 1, seps);
    }
    ReadEntry(elems[i], seps, rest);
  }

  lemma {:induction false} FieldsDetermine(a: seq<Entry>, b: seq<Entry>, i: int)
    requires 0 <= i <= |a| && i <= |b| && FieldsFrom(a, i) == FieldsFrom(b, i)
    ensures a[i..] == b[i..]
    decreases |a| - i
  {
    if i < |a| && i < |b| {
      assert FieldsFrom(a, i)[0] == FieldsFrom(b, i)[0] && FieldsFrom(a, i)[1] == FieldsFrom(b, i)[1];
      assert FieldsFrom(a, i)[2..] == FieldsFrom(a, i + 1) && FieldsFrom(b, i)[2..] == FieldsFrom(b, i + 1);
      FieldsDetermine(a, b, i + 1);
      assert a[i..] == [a[i]] + a[i + 1..] && b[i..] == [b[i]] + b[i + 1..];
    }
  }

  /** Different dictionaries are different strings. */
  lemma StringDetermines(a: seq<Entry>, b: seq<Entry>, seps: Separators)
    requires AreSeparators(seps) && RenderedFrom(a, 0, seps) == RenderedFrom(b, 0, seps)
    ensures a == b
  {
    if a != [] && b != [] {
      assert RenderedFrom(a, 0, seps) == Tail(a, 0, seps) && RenderedFrom(b, 0, seps) == Tail(b, 0, seps);
      ReadRendered(a, 0, seps);
      ReadRendered(b, 0, seps);
      FieldsDetermine(a, b, 0);
      assert a[0..] == a && b[0..] == b;
    }
  }

  // ----- a reader that skips whitespace and knows quotes -----

  /** The characters up to a separator, each with whether a backslash or quotes protect it, and what
      follows */
  function TakeField(text: string, seps: Separators): (r: (seq<(char, bool)>, string))
    ensures |r.1| <= |text|
    decreases |text|
  {
    if text == "" || text[0] == seps.key || text[0] == seps.pair then ([], text)
    else if text[0] == '\\' && |text| > 1 then
      var (field, rest) := TakeField(text[2..], seps);
      ([(text[1], true)] + field, rest)
    else if text[0] == '\'' then TakeQuoted(text[1..], seps)
    else
      var (field, rest) := TakeField(text[1..], seps);
      ([(text[0], false)] + field, rest)
  }

  function TakeQuoted(text: string, seps: Separators): (r: (seq<(char, bool)>, string))
    ensures |r.1| <= |text|
    decreases |text|
  {
    if text == "" then ([], text)
    else if text[0] == '\'' then TakeField(text[1..], seps)
    else
      var (field, rest) := TakeQuoted(text[1..], seps);
      ([(text[0], true)] + field, rest)
  }

  function WithoutSpaceBefore(text: string): string {
    if text != "" && text[0] in WHITESPACES then WithoutSpaceBefore(text[1..]) else text
  }

  function WithoutSpaceBehind(field: seq<(char, bool)>): seq<(char, bool)> {
    var n := |field| - 1;
    if field != [] && field[n].0 in WHITESPACES && !field[n].1 then WithoutSpaceBehind(field[..n]) else field
  }

  function ReadTrimmed(text: string, seps: Separators): (string, string) {
    var (field, rest) := TakeField(WithoutSpaceBefore(text), seps);
    (CharactersOf(WithoutSpaceBehind(field)), rest)
  }

  function CharactersOf(field: seq<(char, bool)>): string {
    seq(|field|, j requires 0 <= j < |field| => field[j].0)
  }

  function Marked(s: CString, i: int, seps: Separators): seq<(char, bool)>
    requires 0 <= i <= |s|
  {
    seq(|s| - i, j requires 0 <= j < |s| - i => (s[i + j], IsEscaped(s, i + j, seps)))
  }

  lemma {:induction false} TakeEscaped(s: CString, i: int, seps: Separators, rest: string)
    requires AreSeparators(seps) && 0 <= i <= |s| && StartsSeparated(rest, seps)
    ensures TakeField(EscapedFrom(s, i, seps) + rest, seps) == (Marked(s, i, seps), rest)
    decreases |s| - i
  {
    var text := EscapedFrom(s, i, seps) + rest;
    if i == |s| {
      assert text == rest && Marked(s, i, seps) == [];
    } else {
      var later := EscapedFrom(s, i + 1, seps) + rest;
      TakeEscaped(s, i + 1, seps, rest);
      if IsEscaped(s, i, seps) {
        assert text == "\\" + [s[i]] + later && text[2..] == later;
      } else {
        assert text == [s[i]] + later && text[1..] == later;
      }
      MarkedStep(s, i, seps);
      hide Marked;
    }
  }

  lemma MarkedStep(s: CString, i: int, seps: Separators)
    requires 0 <= i < |s|
    ensures Marked(s, i, seps) == [(s[i], IsEscaped(s, i, seps))] + Marked(s, i + 1, seps)
  {
  }

  /** Such a reader, too, gives back what has been escaped, whitespace at the ends and quotes included. */
  lemma ReadTrimmedEscaped(s: CString, seps: Separators, rest: string)
    requires AreSeparators(seps) && seps.key !in WHITESPACES && seps.pair !in WHITESPACES && StartsSeparated(rest, seps)
    ensures ReadTrimmed(Escaped(s, seps) + rest, seps) == (s, rest)
  {
    var text, field := Escaped(s, seps) + rest, Marked(s, 0, seps);
    TakeEscaped(s, 0, seps, rest);
    assert WithoutSpaceBefore(text) == text by {
      if s != "" {
        assert text[0] == if IsEscaped(s, 0, seps) then '\\' else s[0];
      } else {
        assert text == rest;
      }
    }
    assert WithoutSpaceBehind(field) == field;
    assert CharactersOf(field) == s;
  }
}
