/**
 The wildcard matcher of func_libs/fx_glob.h (gmatch and brackmatch of the SM_LOOP template, with
 flags 0 and single-byte characters), against a declarative reading of patterns.
 */
module Glob {
  import opened Wrappers

  // ----- what a pattern means -----

  /** A member of a bracket list; a single character is a range of one. */
  datatype Item = Range(lo: char, hi: char)

  datatype Token =
    | Lit(c: char)
    | Any
    | Star
    | Class(negated: bool, items: seq<Item>)
    | Never  // matches no character

  predicate Contains(items: seq<Item>, c: char) {
    exists i :: 0 <= i < |items| && items[i].lo <= c <= items[i].hi
  }

  /** One character against a token other than a star. */
  predicate Accepts(t: Token, c: char) {
    match t
    case Lit(d) => c == d
    case Any => true
    case Class(negated, items) => Contains(items, c) != negated
    case _ => false
  }

  /** The declarative reading: a star stands for any string, every other token for one character. */
  ghost predicate Matches(ts: seq<Token>, s: string)
    decreases |ts|
  {
    if ts == [] then s == ""
    else if ts[0].Star? then exists k :: 0 <= k <= |s| && Matches(ts[1..], s[k..])
    else s != "" && Accepts(ts[0], s[0]) && Matches(ts[1..], s[1..])
  }

  // ----- how a pattern is read -----

  function At(p: string, i: nat): char {
    if i < |p| then p[i] else '\0'
  }

  /** A bracket list up to its `]`, or what is wrong with it. */
  datatype List =
    | Closed(items: seq<Item>, end: nat)
    | Unclosed(items: seq<Item>)    // the pattern ends behind these items
    | Dangling(items: seq<Item>)    // ... in the middle of a range, behind these items
    | Backslash(items: seq<Item>)   // ... with a backslash, behind these items
    | Unsupported                   // `[=`, `[:` or `[.` inside the list

  predicate OpensClass(p: string, i: nat) {
    At(p, i) == '[' && (At(p, i + 1) == '=' || At(p, i + 1) == ':' || At(p, i + 1) == '.')
  }

  function Cons(item: Item, l: List): List {
    if l.Unsupported? then l else l.(items := [item] + l.items)
  }

  /** The list from the item that starts at i. */
  function ReadItems(p: string, i: nat): (l: List)
    ensures l.Closed? ==> i < l.end <= |p|
    decreases |p| - i, 0
  {
    if i >= |p| then Unclosed([])
    else if OpensClass(p, i) then Unsupported
    else if p[i] == '\\' then
      if i + 1 >= |p| then Backslash([]) else ReadRange(p, p[i + 1], i + 2)
    else ReadRange(p, p[i], i + 1)
  }

  /** The list from j on, when the item that started with `lo` ends there or goes on as a range. */
  function ReadRange(p: string, lo: char, j: nat): (l: List)
    requires 0 < j <= |p|
    ensures l.Closed? ==> j < l.end <= |p|
    decreases |p| - j, 2
  {
    if At(p, j) == '-' && At(p, j + 1) != ']' then
      if j + 1 >= |p| then Dangling([])
      else if p[j + 1] == '\\' then
        if j + 2 >= |p| then Backslash([])
        else if p[j + 2] == '[' && At(p, j + 3) == '.' then Unsupported
        else Cons(Range(lo, p[j + 2]), ReadRest(p, j + 3))
      else if OpensClass(p, j + 1) then Unsupported
      else Cons(Range(lo, p[j + 1]), ReadRest(p, j + 2))
    else Cons(Range(lo, lo), ReadRest(p, j))
  }

  /** Behind an item: the closing bracket or the next item. */
  function ReadRest(p: string, n: nat): (l: List)
    requires 0 < n <= |p|
    ensures l.Closed? ==> n < l.end <= |p|
    decreases |p| - n, 1
  {
    if At(p, n) == ']' then Closed([], n + 1) else ReadItems(p, n)
  }

  predicate IsNegation(c: char) {
    c == '!' || c == '^'
  }

  function ReadList(p: string, i: nat): (l: List)
    requires i <= |p|
    ensures l.Closed? ==> i < l.end <= |p|
  {
    if IsNegation(At(p, i)) then ReadItems(p, i + 1) else ReadItems(p, i)
  }

  /** An unclosed `[` is an ordinary character, except where the code gives up on it. */
  predicate IsLiteral(l: List) {
    l.Unclosed? || (l.Dangling? && Contains(l.items, '['))
  }

  /** The tokens of the pattern from i on; None for the constructs that are not modelled. */
  function Read(p: string, i: nat): Option<seq<Token>>
    requires i <= |p|
    decreases |p| - i
  {
    if i == |p| then Some([])
    else if p[i] == '?' then Then(Any, Read(p, i + 1))
    else if p[i] == '*' then Then(Star, Read(p, i + 1))
    else if p[i] == '\\' then
      if i + 1 == |p| then Some([Never]) else Then(Lit(p[i + 1]), Read(p, i + 2))
    else if p[i] == '[' then
      var l := ReadList(p, i + 1);
      if l.Unsupported? then None
      else if l.Closed? then Then(Class(IsNegation(At(p, i + 1)), l.items), Read(p, l.end))
      else if IsLiteral(l) then Then(Lit('['), Read(p, i + 1))
      else Some([Never])
    else Then(Lit(p[i]), Read(p, i + 1))
  }

  function Then(t: Token, rest: Option<seq<Token>>): Option<seq<Token>> {
    if rest.None? then None else Some([t] + rest.value)
  }

  // ----- brackmatch -----

  /** What brackmatch has to return for the list at p0. */
  function ListResult(p: string, p0: nat, test: char): Option<nat>
    requires p0 <= |p|
  {
    var l := ReadList(p, p0);
    match l
    case Closed(items, end) => if Contains(items, test) != IsNegation(At(p, p0)) then Some(end) else None
    case _ => if test == '[' && IsLiteral(l) then Some(p0) else None
  }

  /** What skipping to the end of a list finds, character by character. */
  datatype Skipped = AtEnd(end: nat) | NoBracket | LoneBackslash | InClass

  function Skip(p: string, q: nat): Skipped
    decreases |p| - q
  {
    if q >= |p| then NoBracket
    else if OpensClass(p, q) then InClass
    else if p[q] == ']' then AtEnd(q + 1)
    else if p[q] == '\\' then if q + 1 >= |p| then LoneBackslash else Skip(p, q + 2)
    else Skip(p, q + 1)
  }

  function SkipOf(l: List): Skipped {
    match l
    case Closed(_, end) => AtEnd(end)
    case Unclosed(_) => NoBracket
    case Dangling(_) => NoBracket
    case Backslash(_) => LoneBackslash
    case Unsupported => InClass
  }

  /** The character-wise skip behind an item stops where the item-wise reading ends the list. */
  lemma {:induction false} SkipRest(p: string, n: nat)
    requires 0 < n <= |p| && !ReadRest(p, n).Unsupported?
    ensures Skip(p, n) == SkipOf(ReadRest(p, n))
    decreases |p| - n, 1
  {
    if n < |p| && p[n] != ']' {
      if p[n] == '\\' {
        if n + 1 < |p| {
          SkipRange(p, p[n + 1], n + 2);
        }
      } else {
        SkipRange(p, p[n], n + 1);
      }
    }
  }

  lemma {:induction false} SkipRange(p: string, lo: char, j: nat)
    requires 0 < j <= |p| && !ReadRange(p, lo, j).Unsupported?
    ensures Skip(p, j) == SkipOf(ReadRange(p, lo, j))
    decreases |p| - j, 2
  {
    if At(p, j) == '-' && At(p, j + 1) != ']' {
      if j + 1 < |p| {
        if p[j + 1] != '\\' {
          SkipRest(p, j + 2);
        } else if j + 2 < |p| {
          SkipRest(p, j + 3);
        }
      }
    } else {
      SkipRest(p, j);
    }
  }

  /** The label `matched` of brackmatch: skips the rest of a list behind an item that matched. */
  method SkipList(p: string, n: nat, p0: nat, test: char, negated: bool) returns (r: Option<nat>)
    requires n <= |p| && '\0' !in p && Skip(p, n) != InClass
    ensures match Skip(p, n)
            case AtEnd(end) => r == if negated then None else Some(end)
            case LoneBackslash => r == None
            case _ => r == if test == '[' then Some(p0) else None
  {
    var q := n;
    var c := At(p, q);
    var brcnt := 1;
    while brcnt > 0
      invariant 0 <= q && (brcnt == 0 || brcnt == 1)
      invariant brcnt == 0 ==> q <= |p| && c == ']' && Skip(p, n) == AtEnd(q)
      invariant brcnt == 1 ==> q <= |p| + 1 && Skip(p, n) == Skip(p, q)
      invariant brcnt == 1 && q > |p| ==> c == '\0'
      invariant c == '\0' ==> brcnt == 1 && q >= |p|
      decreases brcnt, |p| + 1 - q
    {
      if c == '\0' {
        return if test == '[' then Some(p0) else None;
      }
      c := At(p, q);
      q := q + 1;
      if c == '[' && (At(p, q) == '=' || At(p, q) == ':' || At(p, q) == '.') {
        brcnt := brcnt + 1;
      } else if c == ']' {
        brcnt := brcnt - 1;
      } else if c == '\\' {
        if At(p, q) == '\0' {
          return None;
        }
        q := q + 1;
      }
    }
    return if negated then None else Some(q);
  }

  /** The items already read, in front of a list. */
  function Prepend(items: seq<Item>, l: List): List {
    if l.Unsupported? then l else l.(items := items + l.items)
  }

  lemma PrependCons(items: seq<Item>, item: Item, l: List)
    ensures Prepend(items, Cons(item, l)) == Prepend(items + [item], l)
  {
    if !l.Unsupported? {
      assert items + ([item] + l.items) == items + [item] + l.items;
    }
  }

  /** The state of the item loop of brackmatch: the item that starts at q - 1 is next, and `seen`
      are the items before it, none of which the character matched. */
  ghost predicate Reading(p: string, p0: nat, test: char, seen: seq<Item>, q: nat) {
    && p0 < q <= |p| + 1 && p0 <= |p|
    && ReadList(p, p0) == Prepend(seen, ReadItems(p, q - 1))
    && !Contains(seen, test)
  }

  lemma ReadingOn(p: string, p0: nat, test: char, seen: seq<Item>, q: nat, lo: char, hi: char, n: nat)
    requires p0 < n <= |p| && Reading(p, p0, test, seen, q)
    requires ReadItems(p, q - 1) == Cons(Range(lo, hi), ReadRest(p, n)) && !(lo <= test <= hi)
    ensures At(p, n) != ']' ==> Reading(p, p0, test, seen + [Range(lo, hi)], n + 1)
    ensures At(p, n) == ']' ==> ReadList(p, p0) == Closed(seen + [Range(lo, hi)], n + 1)
    ensures !Contains(seen + [Range(lo, hi)], test)
  {
    PrependCons(seen, Range(lo, hi), ReadRest(p, n));
    var more := seen + [Range(lo, hi)];
    assert forall i | 0 <= i < |seen| :: more[i] == seen[i];
  }

  /** The item matches: the rest of the list only matters for where it ends. */
  lemma MatchedResult(p: string, p0: nat, test: char, seen: seq<Item>, q: nat, lo: char, hi: char, n: nat)
    requires p0 < n <= |p| && Reading(p, p0, test, seen, q) && !ReadList(p, p0).Unsupported?
    requires ReadItems(p, q - 1) == Cons(Range(lo, hi), ReadRest(p, n)) && lo <= test <= hi
    ensures Skip(p, n) != InClass
    ensures ListResult(p, p0, test) ==
            match Skip(p, n)
            case AtEnd(end) => if IsNegation(At(p, p0)) then None else Some(end)
            case LoneBackslash => None
            case _ => if test == '[' then Some(p0) else None
  {
    SkipRest(p, n);
    var l := ReadList(p, p0);
    assert l.items[|seen|] == Range(lo, hi);
  }

  /** How reading one item ends: with the item and the position behind it, at the end of the
      pattern, or in a place where brackmatch gives up. */
  datatype ItemRead = Got(lo: char, hi: char, n: nat) | AtNul | GiveUp

  /** The item whose first character c is at q0 - 1. */
  method ReadItem(p: string, q0: nat, c0: char) returns (r: ItemRead)
    requires 0 < q0 <= |p| + 1 && '\0' !in p && c0 == At(p, q0 - 1) && !ReadItems(p, q0 - 1).Unsupported?
    ensures match r
            case Got(lo, hi, n) => q0 <= n <= |p| && ReadItems(p, q0 - 1) == Cons(Range(lo, hi), ReadRest(p, n))
            case AtNul => ReadItems(p, q0 - 1) == Unclosed([])
            case GiveUp => ReadItems(p, q0 - 1) == Dangling([]) || ReadItems(p, q0 - 1) == Backslash([])
  {
    var c, q := c0, q0;
    var cstart, cend := c, c;
    if c == '\\' {
      if At(p, q) == '\0' {
        return GiveUp;
      }
      cstart, cend := At(p, q), At(p, q);
      q := q + 1;
    }
    if c == '\0' {
      return AtNul;
    }
    c := At(p, q);
    q := q + 1;
    if c == '-' && At(p, q) != ']' {
      cend := At(p, q);
      q := q + 1;
      if cend == '\\' {
        cend := At(p, q);
        q := q + 1;
      }
      if cend == '\0' {
        return GiveUp;
      }
      q := q + 1;
    }
    return Got(cstart, cend, q - 1);
  }

  lemma GivesUp(p: string, p0: nat, test: char, seen: seq<Item>, q: nat)
    requires Reading(p, p0, test, seen, q)
    ensures ReadItems(p, q - 1) == Unclosed([]) ==>
              ListResult(p, p0, test) == if test == '[' then Some(p0) else None
    ensures ReadItems(p, q - 1) == Dangling([]) || ReadItems(p, q - 1) == Backslash([]) ==>
              ListResult(p, p0, test) == None
  {
    assert seen + [] == seen;
  }

  /** brackmatch: the position behind the list if it accepts the character, p0 if the `[` is an
      ordinary character and matches, None otherwise. */
  method BrackMatch(p: string, p0: nat, test: char) returns (r: Option<nat>)
    requires p0 <= |p| && '\0' !in p && !ReadList(p, p0).Unsupported?
    ensures r == ListResult(p, p0, test)
  {
    var q := p0;
    var negated := IsNegation(At(p, q));
    if negated {
      q := q + 1;
    }
    var c := At(p, q);
    q := q + 1;
    ghost var seen: seq<Item> := [];
    while true
      invariant Reading(p, p0, test, seen, q) && c == At(p, q - 1)
      decreases |p| + 1 - q
    {
      var item := ReadItem(p, q, c);
      GivesUp(p, p0, test, seen, q);
      if item.AtNul? {
        return if test == '[' then Some(p0) else None;
      } else if item.GiveUp? {
        return None;
      }
      if item.lo <= test <= item.hi {
        MatchedResult(p, p0, test, seen, q, item.lo, item.hi, item.n);
        r := SkipList(p, item.n, p0, test, negated);
        return;
      }
      ReadingOn(p, p0, test, seen, q, item.lo, item.hi, item.n);
      seen := seen + [Range(item.lo, item.hi)];
      c := At(p, item.n);
      q := item.n + 1;
      if c == ']' {
        break;
      }
    }
    return if negated then Some(q) else None;
  }

  // ----- gmatch -----

  /** A star takes no character, or one more. */
  lemma StarStep(ts: seq<Token>, s: string)
    ensures Matches([Star] + ts, s) <==> Matches(ts, s) || (s != "" && Matches([Star] + ts, s[1..]))
  {
    var all := [Star] + ts;
    assert all[1..] == ts;
    assert s[0..] == s;
    if s != "" {
      if Matches(all, s) && !Matches(ts, s) {
        var k :| 0 <= k <= |s| && Matches(ts, s[k..]);
        assert s[1..][k - 1..] == s[k..];
      }
      if Matches(all, s[1..]) {
        var k :| 0 <= k <= |s[1..]| && Matches(ts, s[1..][k..]);
        assert s[1..][k..] == s[k + 1..];
      }
    }
  }

  lemma HeadOf(t: Token, ts: seq<Token>, s: string)
    requires !t.Star?
    ensures Matches([t] + ts, s) <==> s != "" && Accepts(t, s[0]) && Matches(ts, s[1..])
  {
    assert ([t] + ts)[1..] == ts;
  }

  /** `*?` takes one character and is a star again. */
  lemma {:induction false} StarAny(ts: seq<Token>, s: string)
    ensures Matches([Star] + ([Any] + ts), s) <==> s != "" && Matches([Star] + ts, s[1..])
    decreases |s|
  {
    StarStep([Any] + ts, s);
    HeadOf(Any, ts, s);
    if s != "" {
      StarAny(ts, s[1..]);
      StarStep(ts, s[1..]);
    }
  }

  lemma {:induction false} StarStar(ts: seq<Token>, s: string)
    ensures Matches([Star] + ([Star] + ts), s) <==> Matches([Star] + ts, s)
    decreases |s|
  {
    StarStep([Star] + ts, s);
    StarStep(ts, s);
    if s != "" {
      StarStar(ts, s[1..]);
    }
  }

  /** A star at the end of the pattern takes everything. */
  lemma StarEnd(s: string)
    ensures Matches([Star] + [], s)
  {
    assert ([Star] + [])[1..] == [] && s[|s|..] == "";
    assert Matches([], s[|s|..]);
  }

  /** The first character that a pattern not starting with a wildcard can match. */
  lemma FirstCharacter(p: string, q: nat, s: string)
    requires q < |p| && p[q] != '*' && p[q] != '?' && Read(p, q).Some? && '\0' !in s
    ensures Matches(Read(p, q).value, s) ==> s != ""
    ensures Matches(Read(p, q).value, s) && p[q] != '[' ==>
              s[0] == if p[q] == '\\' then At(p, q + 1) else p[q]
  {
    var ts := Read(p, q).value;
    assert ts == [ts[0]] + ts[1..];
    HeadOf(ts[0], ts[1..], s);
  }

  /** gmatch from a star on, which stands just before p0. */
  method MatchStar(s: string, n0: nat, p: string, p0: nat) returns (ok: bool)
    requires n0 <= |s| && p0 <= |p| && '\0' !in s && '\0' !in p && Read(p, p0).Some?
    ensures ok <==> Matches([Star] + Read(p, p0).value, s[n0..])
    decreases |p| - p0, 2
  {
    if p0 == |p| {
      StarEnd(s[n0..]);
      return true;
    }
    var q, n := p0 + 1, n0;
    var c := p[p0];
    while c == '?' || c == '*'
      invariant p0 < q <= |p| && 0 <= n <= |s| && c == p[q - 1] && Read(p, q - 1).Some?
      invariant Matches([Star] + Read(p, q - 1).value, s[n..]) <==> Matches([Star] + Read(p, p0).value, s[n0..])
      decreases |p| - q
    {
      var rest := Read(p, q).value;
      if c == '?' {
        StarAny(rest, s[n..]);
        if n == |s| {
          return false;
        }
        assert s[n..][1..] == s[n + 1..];
        n := n + 1;
      } else {
        StarStar(rest, s[n..]);
      }
      if q == |p| {
        break;
      }
      c := p[q];
      q := q + 1;
    }
    if q == |p| && (c == '?' || c == '*') {
      StarEnd(s[n..]);
      return true;
    }
    ok := TryFrom(s, n, p, q - 1);
  }

  /** The general case behind a star: tries every position at which the first character fits. */
  method TryFrom(s: string, n0: nat, p: string, q: nat) returns (ok: bool)
    requires n0 <= |s| && q < |p| && '\0' !in s && '\0' !in p && Read(p, q).Some?
    requires p[q] != '*' && p[q] != '?'
    ensures ok <==> Matches([Star] + Read(p, q).value, s[n0..])
    decreases |p| - q, 1
  {
    var n, c := n0, p[q];
    var first := if c == '\\' then At(p, q + 1) else c;
    ghost var ts := Read(p, q).value;
    while n < |s|
      invariant n0 <= n <= |s|
      invariant Matches([Star] + ts, s[n..]) <==> Matches([Star] + ts, s[n0..])
    {
      StarStep(ts, s[n..]);
      assert s[n..][1..] == s[n + 1..];
      FirstCharacter(p, q, s[n..]);
      if c == '[' || s[n] == first {
        var found := GMatch(s, n, p, q);
        if found {
          return true;
        }
      }
      n := n + 1;
    }
    StarStep(ts, s[n..]);
    FirstCharacter(p, q, s[n..]);
    return false;
  }

  /** gmatch: does the string from n0 on match the pattern from p0 on? */
  method GMatch(s: string, n0: nat, p: string, p0: nat) returns (ok: bool)
    requires n0 <= |s| && p0 <= |p| && '\0' !in s && '\0' !in p && Read(p, p0).Some?
    ensures ok <==> Matches(Read(p, p0).value, s[n0..])
    decreases |p| - p0, 0
  {
    var q, n := p0, n0;
    while q < |p|
      invariant p0 <= q <= |p| && 0 <= n <= |s| && Read(p, q).Some?
      invariant Matches(Read(p, q).value, s[n..]) <==> Matches(Read(p, p0).value, s[n0..])
      decreases |p| - q
    {
      ghost var ts := Read(p, q).value;
      var c := p[q];
      q := q + 1;
      if c == '*' {
        assert ts == [Star] + Read(p, q).value;
        ok := MatchStar(s, n, p, q);
        return;
      }
      HeadOf(ts[0], ts[1..], s[n..]);
      assert ts == [ts[0]] + ts[1..];
      var sc := At(s, n);
      if c == '?' {
        if sc == '\0' {
          return false;
        }
      } else if c == '\\' {
        if q == |p| {
          return false;
        }
        c := p[q];
        q := q + 1;
        if sc != c {
          return false;
        }
      } else if c == '[' {
        if sc == '\0' {
          return false;
        }
        var r := BrackMatch(p, q, sc);
        if r == None {
          return false;
        }
        q := r.value;
      } else if c != sc {
        return false;
      }
      assert s[n..][1..] == s[n + 1..];
      n := n + 1;
    }
    return n == |s|;
  }

  /** internal_strmatch with flags 0: the string is accepted exactly when the pattern's language has it. */
  method StrMatch(pattern: string, s: string) returns (ok: bool)
    requires '\0' !in s && '\0' !in pattern && Read(pattern, 0).Some?
    ensures ok <==> Matches(Read(pattern, 0).value, s)
  {
    ok := GMatch(s, 0, pattern, 0);
    assert s[0..] == s;
  }

  // ----- what the language means for callers -----

  /** The skip from q on finds no closing bracket. */
  predicate NoEnd(p: string, q: nat) {
    Skip(p, q).NoBracket? || Skip(p, q).LoneBackslash?
  }

  /** A list that opens where no closing bracket follows is not closed. */
  lemma InnerUnclosed(p: string, j: nat)
    requires j <= |p| && NoEnd(p, j) && !ReadList(p, j).Unsupported?
    ensures !ReadList(p, j).Closed?
  {
    var k := if IsNegation(At(p, j)) then j + 1 else j;
    assert Skip(p, k) == Skip(p, j);
    if k < |p| && p[k] != '\\' {
      SkipRange(p, p[k], k + 1);
    } else if k + 1 < |p| {
      SkipRange(p, p[k + 1], k + 2);
    }
  }

  /** Tokens that each match some character of a string without zeros. */
  ghost predicate Plain(p: string, ts: seq<Token>) {
    forall t | t in ts :: !t.Class? && (t.Lit? ==> t.c in p)
  }

  /** Where no closing bracket follows, the pattern reads as one without bracket lists. */
  lemma {:induction false} PlainFrom(p: string, q: nat)
    requires q <= |p| && NoEnd(p, q) && Read(p, q).Some?
    ensures Plain(p, Read(p, q).value)
    decreases |p| - q
  {
    if q < |p| {
      if p[q] == '[' {
        InnerUnclosed(p, q + 1);
      }
      if p[q] == '\\' {
        if q + 1 < |p| {
          PlainFrom(p, q + 2);
        }
      } else if Read(p, q + 1).Some? {
        PlainFrom(p, q + 1);
      }
    }
  }

  /** The first item of a list may be a bracket; what follows it has no closing one. */
  lemma PlainInside(p: string, k: nat)
    requires k <= |p| && Read(p, k).Some?
    requires !ReadItems(p, k).Closed? && !ReadItems(p, k).Unsupported?
    ensures Plain(p, Read(p, k).value)
  {
    if k < |p| && p[k] == '\\' {
      if k + 1 < |p| {
        SkipRange(p, p[k + 1], k + 2);
        PlainFrom(p, k + 2);
      }
    } else if k < |p| {
      SkipRange(p, p[k], k + 1);
      if p[k] == '[' {
        InnerUnclosed(p, k + 1);
      }
      if Read(p, k + 1).Some? {
        PlainFrom(p, k + 1);
      }
    }
  }

  lemma PlainInList(p: string, k: nat)
    requires k <= |p| && Read(p, k).Some?
    requires !ReadList(p, k).Closed? && !ReadList(p, k).Unsupported?
    ensures Plain(p, Read(p, k).value)
  {
    if IsNegation(At(p, k)) {
      PlainInside(p, k + 1);
    } else {
      PlainInside(p, k);
    }
  }

  /** Without bracket lists, only a token that matches no character keeps a pattern from matching. */
  lemma {:induction false} SomeMatch(p: string, ts: seq<Token>) returns (s: string)
    requires Plain(p, ts) && Never !in ts && '\0' !in p
    ensures Matches(ts, s) && '\0' !in s
  {
    if ts == [] {
      s := "";
    } else {
      var rest := SomeMatch(p, ts[1..]);
      assert ts == [ts[0]] + ts[1..];
      if ts[0].Star? {
        s := rest;
        StarStep(ts[1..], s);
      } else {
        s := [if ts[0].Lit? then ts[0].c else 'a'] + rest;
        HeadOf(ts[0], ts[1..], s);
      }
    }
  }

  lemma {:induction false} NeverMatches(ts: seq<Token>, s: string)
    requires Never in ts
    ensures !Matches(ts, s)
    decreases |ts|
  {
    if ts[0].Star? {
      forall k | 0 <= k <= |s|
        ensures !Matches(ts[1..], s[k..])
      {
        NeverMatches(ts[1..], s[k..]);
      }
    } else if ts[0] != Never && s != "" {
      NeverMatches(ts[1..], s[1..]);
    }
  }

  /** The two patterns accept the same strings. */
  ghost predicate SameLanguage(ts: seq<Token>, us: seq<Token>) {
    forall s | '\0' !in s :: Matches(ts, s) <==> Matches(us, s)
  }

  /** Exactly when an unclosed `[` is the ordinary character that the comment promises: when its list
      ends plainly, or in a range with a bracket before it, or when the rest of the pattern matches
      nothing anyway. */
  lemma UnclosedBracket(p: string, i: nat)
    requires i < |p| && '\0' !in p && p[i] == '[' && Read(p, i + 1).Some?
    requires var l := ReadList(p, i + 1); !l.Closed? && !l.Unsupported?
    ensures SameLanguage(Read(p, i).value, [Lit('[')] + Read(p, i + 1).value)
       <==> IsLiteral(ReadList(p, i + 1)) || Never in Read(p, i + 1).value
  {
    var ts := Read(p, i + 1).value;
    if !IsLiteral(ReadList(p, i + 1)) {
      assert Read(p, i).value == [Never];
      if Never in ts {
        forall s
          ensures !Matches([Never], s) && !Matches([Lit('[')] + ts, s)
        {
          NeverMatches([Never], s);
          NeverMatches([Lit('[')] + ts, s);
        }
      } else {
        PlainInList(p, i + 1);
        var s := SomeMatch(p, ts);
        HeadOf(Lit('['), ts, ['['] + s);
        NeverMatches([Never], ['['] + s);
        assert '\0' !in ['['] + s;
      }
    }
  }

  /** Such a list: the pattern "[a-" read literally is the string "[a-", but does not match it. */
  lemma DanglingRange()
    ensures Read("[a-", 0).Some? && !Matches(Read("[a-", 0).value, "[a-")
    ensures Read("[a-", 1) == Some([Lit('a'), Lit('-')])
    ensures Matches([Lit('['), Lit('a'), Lit('-')], "[a-")
  {
    var p := "[a-";
    assert ReadItems(p, 1) == Dangling([]) && ReadList(p, 1) == Dangling([]);
    assert Read(p, 3) == Some([]);
    assert [Lit('-')] + [] == [Lit('-')] && p[2] == '-' && p[1] == 'a';
    assert Read(p, 2) == Some([Lit('-')]);
    HeadOf(Lit('-'), [], "-");
    HeadOf(Lit('a'), [Lit('-')], "a-");
    HeadOf(Lit('['), [Lit('a'), Lit('-')], p);
    assert [Lit('a')] + [Lit('-')] == [Lit('a'), Lit('-')];
    assert [Lit('[')] + [Lit('a'), Lit('-')] == [Lit('['), Lit('a'), Lit('-')];
    assert p[1..] == "a-" && "a-"[1..] == "-" && "-"[1..] == "";
  }

  /** The string with a backslash before every character. */
  function Escaped(s: string): string {
    seq(2 * |s|, k requires 0 <= k < 2 * |s| => if k % 2 == 0 then '\\' else s[k / 2])
  }

  /** An escaped string matches itself and nothing else. */
  lemma EscapedMatchesItself(s: string, t: string)
    ensures Read(Escaped(s), 0).Some? && (Matches(Read(Escaped(s), 0).value, t) <==> t == s)
  {
    EscapedFrom(s, 0, t);
    assert s[0..] == s;
  }

  lemma {:induction false} EscapedFrom(s: string, i: nat, t: string)
    requires i <= |s|
    ensures Read(Escaped(s), 2 * i).Some? && (Matches(Read(Escaped(s), 2 * i).value, t) <==> t == s[i..])
    decreases |s| - i
  {
    if i < |s| {
      EscapedFrom(s, i + 1, if t == "" then t else t[1..]);
      HeadOf(Lit(s[i]), Read(Escaped(s), 2 * (i + 1)).value, t);
      assert s[i..] == [s[i]] + s[i + 1..];
      assert t != "" ==> t == [t[0]] + t[1..];
    }
  }

  // ----- patterns as they are written -----

  /** A member of a bracket list: a character, one behind a backslash, or a range. */
  datatype Member = One(c: char) | Quoted(c: char) | Span(lo: char, hi: char)

  /** A piece of a pattern. The mark of a list is what stands behind its bracket: nothing, `!` or `^`. */
  datatype Piece = Just(c: char) | Escape(c: char) | AnyOne | AnyMany | OneOf(mark: string, members: seq<Member>)

  /** A character that stands for itself anywhere in a list. */
  predicate IsOrdinary(c: char) {
    c !in "[]-\\"
  }

  predicate IsWritten(m: Member) {
    match m
    case One(c) => IsOrdinary(c)
    case Quoted(_) => true
    case Span(lo, hi) => IsOrdinary(lo) && hi !in "[]\\"
  }

  /** The last member may be a hyphen. */
  predicate AreWritten(members: seq<Member>) {
    members == [] || members == [One('-')] || (IsWritten(members[0]) && AreWritten(members[1..]))
  }

  /** The first member may start with a closing bracket or a hyphen, but not with what looks like a mark. */
  predicate IsFirst(mark: string, m: Member) {
    && (mark == "" ==> MemberText(m)[0] !in "!^")
    && match m
       case One(c) => c !in "[\\"
       case Quoted(_) => true
       case Span(lo, hi) => lo !in "[\\" && hi !in "[]\\"
  }

  predicate IsPiece(x: Piece) {
    match x
    case Just(c) => c !in "*?[\\"
    case OneOf(mark, members) =>
      mark in {"", "!", "^"} && members != [] && IsFirst(mark, members[0]) && AreWritten(members[1..])
    case _ => true
  }

  predicate ArePieces(pieces: seq<Piece>) {
    pieces == [] || (IsPiece(pieces[0]) && ArePieces(pieces[1..]))
  }

  function MemberText(m: Member): string {
    match m
    case One(c) => [c]
    case Quoted(c) => ['\\', c]
    case Span(lo, hi) => [lo, '-', hi]
  }

  function ListText(members: seq<Member>): string {
    if members == [] then "" else MemberText(members[0]) + ListText(members[1..])
  }

  function PieceText(x: Piece): string {
    match x
    case Just(c) => [c]
    case Escape(c) => ['\\', c]
    case AnyOne => "?"
    case AnyMany => "*"
    case OneOf(mark, members) => "[" + (mark + (ListText(members) + "]"))
  }

  function Text(pieces: seq<Piece>): string {
    if pieces == [] then "" else PieceText(pieces[0]) + Text(pieces[1..])
  }

  /** The characters that a member stands for. */
  predicate Covers(m: Member, c: char) {
    match m
    case One(d) => c == d
    case Quoted(d) => c == d
    case Span(lo, hi) => lo <= c <= hi
  }

  predicate Listed(members: seq<Member>, c: char) {
    exists k :: 0 <= k < |members| && Covers(members[k], c)
  }

  /** What the pieces of a pattern mean. */
  ghost predicate Means(pieces: seq<Piece>, s: string)
    decreases |pieces|
  {
    if pieces == [] then s == ""
    else
      match pieces[0]
      case AnyMany => exists k :: 0 <= k <= |s| && Means(pieces[1..], s[k..])
      case AnyOne => s != "" && Means(pieces[1..], s[1..])
      case Just(c) => s != "" && s[0] == c && Means(pieces[1..], s[1..])
      case Escape(c) => s != "" && s[0] == c && Means(pieces[1..], s[1..])
      case OneOf(mark, members) =>
        s != "" && (if mark == "" then Listed(members, s[0]) else !Listed(members, s[0])) && Means(pieces[1..], s[1..])
  }

  function ItemOf(m: Member): Item {
    match m
    case One(c) => Range(c, c)
    case Quoted(c) => Range(c, c)
    case Span(lo, hi) => Range(lo, hi)
  }

  function ItemsOf(members: seq<Member>): (items: seq<Item>)
    ensures |items| == |members| && forall k | 0 <= k < |members| :: items[k] == ItemOf(members[k])
  {
    if members == [] then [] else [ItemOf(members[0])] + ItemsOf(members[1..])
  }

  function TokenOf(x: Piece): Token {
    match x
    case Just(c) => Lit(c)
    case Escape(c) => Lit(c)
    case AnyOne => Any
    case AnyMany => Star
    case OneOf(mark, members) => Class(mark != "", ItemsOf(members))
  }

  function TokensOf(pieces: seq<Piece>): seq<Token> {
    if pieces == [] then [] else [TokenOf(pieces[0])] + TokensOf(pieces[1..])
  }

  /** `text` stands at position i. */
  predicate StandsAt(p: string, i: nat, text: string) {
    i + |text| <= |p| && p[i..i + |text|] == text
  }

  lemma StandsSplit(p: string, i: nat, a: string, b: string)
    requires StandsAt(p, i, a + b)
    ensures StandsAt(p, i, a) && StandsAt(p, i + |a|, b)
    ensures forall k | 0 <= k < |a| :: p[i + k] == a[k]
  {
    var t := p[i..i + |a + b|];
    assert t[..|a|] == a && t[|a|..] == b;
    assert p[i..i + |a|] == t[..|a|] && p[i + |a|..i + |a| + |b|] == t[|a|..];
    assert forall k | 0 <= k < |a| :: p[i + k] == t[k];
  }

  /** What can follow a member: no hyphen, unless it is the last member. */
  predicate CanFollow(p: string, n: nat) {
    n < |p| && (p[n] == '-' ==> At(p, n + 1) == ']')
  }

  /** One member is read as one item. */
  lemma ReadMember(p: string, i: nat, mark: string, m: Member)
    requires StandsAt(p, i, MemberText(m)) && IsFirst(mark, m)
    requires CanFollow(p, i + |MemberText(m)|)
    ensures ReadItems(p, i) == Cons(ItemOf(m), ReadRest(p, i + |MemberText(m)|))
  {
    var text := MemberText(m);
    assert text + "" == text;
    StandsSplit(p, i, text, "");
    assert p[i + 0] == text[0];
    assert |text| >= 2 ==> p[i + 1] == text[1];
    assert |text| >= 3 ==> p[i + 2] == text[2];
    hide ReadRest;
  }

  /** A member that is not the first. */
  lemma NextMember(p: string, i: nat, members: seq<Member>)
    requires members != [] && AreWritten(members) && StandsAt(p, i, ListText(members) + "]")
    ensures CanFollow(p, i) && p[i] != ']' && IsFirst("!", members[0]) && AreWritten(members[1..])
  {
    var m, more := members[0], ListText(members[1..]) + "]";
    assert ListText(members) + "]" == MemberText(m) + more;
    StandsSplit(p, i, MemberText(m), more);
    assert p[i + 0] == MemberText(m)[0];
    if m == One('-') {
      assert more == "]";
      assert p[i + 1] == ']';
    }
  }

  lemma FirstMember(p: string, i: nat, m: Member, more: seq<Member>)
    requires StandsAt(p, i, MemberText(m) + (ListText(more) + "]")) && AreWritten(more)
    ensures var n := i + |MemberText(m)|;
            && StandsAt(p, i, MemberText(m)) && StandsAt(p, n, ListText(more) + "]")
            && CanFollow(p, n) && (p[n] == ']' <==> more == [])
  {
    var n := i + |MemberText(m)|;
    StandsSplit(p, i, MemberText(m), ListText(more) + "]");
    if more != [] {
      NextMember(p, n, more);
    } else {
      StandsSplit(p, n, "", "]");
      assert "" + "]" == "]" && p[n + 0] == ']';
    }
  }

  lemma {:induction false} ReadMembers(p: string, i: nat, mark: string, members: seq<Member>)
    requires members != [] && IsFirst(mark, members[0]) && AreWritten(members[1..])
    requires StandsAt(p, i, ListText(members) + "]")
    ensures ReadItems(p, i) == Closed(ItemsOf(members), i + |ListText(members)| + 1)
    decreases |members|
  {
    var m, more := members[0], members[1..];
    var n := i + |MemberText(m)|;
    assert ListText(members) + "]" == MemberText(m) + (ListText(more) + "]");
    hide ListText, StandsAt, ReadItems, MemberText, IsFirst, AreWritten, OpensClass;
    FirstMember(p, i, m, more);
    ReadMember(p, i, mark, m);
    if more != [] {
      NextMember(p, n, more);
      ReadMembers(p, n, "!", more);
    }
  }

  lemma ListParts(p: string, i: nat, mark: string, list: string)
    requires StandsAt(p, i, "[" + (mark + list))
    ensures StandsAt(p, i + 1 + |mark|, list) && i + 1 + |mark| <= |p| && p[i] == '['
    ensures mark != "" ==> p[i + 1] == mark[0]
  {
    StandsSplit(p, i, "[", mark + list);
    StandsSplit(p, i + 1, mark, list);
    assert p[i + 0] == '[';
    assert mark != "" ==> p[i + 1 + 0] == mark[0];
  }

  lemma ReadOneOf(p: string, i: nat, mark: string, members: seq<Member>)
    requires StandsAt(p, i, PieceText(OneOf(mark, members))) && IsPiece(OneOf(mark, members))
    ensures i < |p| && p[i] == '[' && ReadList(p, i + 1) == Closed(ItemsOf(members), i + |PieceText(OneOf(mark, members))|)
    ensures IsNegation(At(p, i + 1)) <==> mark != ""
  {
    var list, j := ListText(members) + "]", i + 1 + |mark|;
    hide ReadItems, ReadList, ItemsOf, StandsAt, AreWritten;
    ListParts(p, i, mark, list);
    ListStart(p, j, members, mark);
    hide ListText, IsFirst;
    ReadMembers(p, j, mark, members);
    MarkSkipped(p, i, mark);
  }

  lemma ListStart(p: string, i: nat, members: seq<Member>, mark: string)
    requires members != [] && IsFirst(mark, members[0]) && StandsAt(p, i, ListText(members) + "]")
    ensures i < |p| && (mark == "" ==> !IsNegation(p[i]))
  {
    var m, more := members[0], ListText(members[1..]) + "]";
    assert ListText(members) + "]" == MemberText(m) + more;
    StandsSplit(p, i, MemberText(m), more);
    assert p[i + 0] == MemberText(m)[0];
  }

  lemma MarkSkipped(p: string, i: nat, mark: string)
    requires mark in {"", "!", "^"} && i + 1 + |mark| < |p|
    requires if mark == "" then !IsNegation(p[i + 1]) else p[i + 1] == mark[0]
    ensures ReadList(p, i + 1) == ReadItems(p, i + 1 + |mark|)
    ensures IsNegation(At(p, i + 1)) <==> mark != ""
  {
    hide ReadItems;
  }

  /** One piece is read as one token. */
  lemma ReadPiece(p: string, i: nat, x: Piece)
    requires StandsAt(p, i, PieceText(x)) && IsPiece(x)
    ensures i < |p| && Read(p, i) == Then(TokenOf(x), Read(p, i + |PieceText(x)|))
  {
    var text := PieceText(x);
    assert text + "" == text;
    StandsSplit(p, i, text, "");
    assert p[i + 0] == text[0];
    assert |text| >= 2 ==> p[i + 1] == text[1];
    if x.OneOf? {
      ReadOneOf(p, i, x.mark, x.members);
    }
    hide ReadList, ListText, IsNegation, ItemsOf;
  }

  lemma FirstPiece(p: string, i: nat, pieces: seq<Piece>)
    requires pieces != [] && i <= |p| && p[i..] == Text(pieces)
    ensures var n := i + |PieceText(pieces[0])|;
            StandsAt(p, i, PieceText(pieces[0])) && n <= |p| && p[n..] == Text(pieces[1..])
  {
    var x, more := pieces[0], pieces[1..];
    assert p[i..] == PieceText(x) + Text(more);
    hide PieceText, Text;
    assert p[i..i + |PieceText(x)|] == p[i..][..|PieceText(x)|];
    assert p[i + |PieceText(x)|..] == p[i..][|PieceText(x)|..];
  }

  lemma ReadEnd(p: string, i: nat)
    requires i <= |p| && p[i..] == Text([])
    ensures Read(p, i) == Some(TokensOf([]))
  {
    assert i == |p|;
  }

  /** Reading a written pattern gives its tokens. */
  lemma {:induction false} ReadText(p: string, i: nat, pieces: seq<Piece>)
    requires i <= |p| && p[i..] == Text(pieces) && ArePieces(pieces)
    ensures Read(p, i) == Some(TokensOf(pieces))
    decreases |pieces|
  {
    hide Read, Text, PieceText, IsPiece, StandsAt;
    if pieces == [] {
      ReadEnd(p, i);
    } else {
      var x, more := pieces[0], pieces[1..];
      hide TokenOf;
      FirstPiece(p, i, pieces);
      ReadPiece(p, i, x);
      ReadText(p, i + |PieceText(x)|, more);
    }
  }

  lemma ContainsListed(members: seq<Member>, c: char)
    ensures Contains(ItemsOf(members), c) <==> Listed(members, c)
  {
    var items := ItemsOf(members);
    hide ItemsOf;
    if Contains(items, c) {
      var k :| 0 <= k < |items| && items[k].lo <= c <= items[k].hi;
      assert Covers(members[k], c);
    }
    if Listed(members, c) {
      var k :| 0 <= k < |members| && Covers(members[k], c);
      assert items[k].lo <= c <= items[k].hi;
    }
  }

  lemma {:induction false} TokensMean(pieces: seq<Piece>, s: string)
    ensures Matches(TokensOf(pieces), s) <==> Means(pieces, s)
    decreases |pieces|
  {
    if pieces != [] {
      var x, more := pieces[0], pieces[1..];
      assert TokensOf(pieces)[1..] == TokensOf(more);
      if x.AnyMany? {
        forall k | 0 <= k <= |s|
          ensures Matches(TokensOf(more), s[k..]) <==> Means(more, s[k..])
        {
          TokensMean(more, s[k..]);
        }
      } else if s != "" {
        TokensMean(more, s[1..]);
        if x.OneOf? {
          ContainsListed(x.members, s[0]);
        }
      }
    }
  }

  /** A pattern means what its pieces mean, however its lists are negated and its characters quoted. */
  lemma PatternMeans(pieces: seq<Piece>, s: string)
    requires ArePieces(pieces)
    ensures Read(Text(pieces), 0).Some? && (Matches(Read(Text(pieces), 0).value, s) <==> Means(pieces, s))
  {
    assert Text(pieces)[0..] == Text(pieces);
    ReadText(Text(pieces), 0, pieces);
    TokensMean(pieces, s);
  }

  /** The members of a list that are just characters. */
  function Ones(t: string): (members: seq<Member>)
    ensures |members| == |t| && forall k | 0 <= k < |t| :: members[k] == One(t[k])
  {
    seq(|t|, k requires 0 <= k < |t| => One(t[k]))
  }

  lemma {:induction false} OnesText(t: string)
    ensures ListText(Ones(t)) == t
  {
    if t != "" {
      assert Ones(t)[1..] == Ones(t[1..]);
      OnesText(t[1..]);
      assert t == [t[0]] + t[1..];
    }
  }

  lemma OneListMeans(mark: string, members: seq<Member>, s: string)
    requires IsPiece(OneOf(mark, members))
    ensures var p := "[" + (mark + (ListText(members) + "]"));
            Read(p, 0).Some? && (Matches(Read(p, 0).value, s) <==> |s| == 1 && (Listed(members, s[0]) <==> mark == ""))
  {
    var pieces := [OneOf(mark, members)];
    assert Text(pieces) == PieceText(pieces[0]) + Text(pieces[1..]) == PieceText(pieces[0]);
    PatternMeans(pieces, s);
    if s != "" {
      assert Means(pieces[1..], s[1..]) <==> |s| == 1;
    }
  }

  /** A list of characters accepts exactly these, and behind `!` or `^` exactly the others. */
  lemma ListOfCharacters(t: string, s: string)
    requires t != "" && forall k | 0 <= k < |t| :: IsOrdinary(t[k])
    ensures t[0] !in "!^" ==>
              var p := "[" + t + "]";
              Read(p, 0).Some? && (Matches(Read(p, 0).value, s) <==> |s| == 1 && s[0] in t)
    ensures var p := "[!" + t + "]";
            Read(p, 0).Some? && (Matches(Read(p, 0).value, s) <==> |s| == 1 && s[0] !in t)
    ensures var p := "[^" + t + "]";
            Read(p, 0).Some? && (Matches(Read(p, 0).value, s) <==> |s| == 1 && s[0] !in t)
  {
    hide Read, Matches, ListText, Listed, Ones, IsOrdinary;
    OnesArePiece(t, "!");
    OnesArePiece(t, "^");
    OnesText(t);
    OneListMeans("!", Ones(t), s);
    OneListMeans("^", Ones(t), s);
    assert "[" + ("!" + (t + "]")) == "[!" + t + "]" && "[" + ("^" + (t + "]")) == "[^" + t + "]";
    if t[0] !in "!^" {
      OnesArePiece(t, "");
      OneListMeans("", Ones(t), s);
      assert "[" + ("" + (t + "]")) == "[" + t + "]";
    }
    if s != "" {
      OnesListed(t, s[0]);
    }
  }

  lemma OnesArePiece(t: string, mark: string)
    requires t != "" && (forall k | 0 <= k < |t| :: IsOrdinary(t[k])) && mark in {"", "!", "^"}
    requires mark == "" ==> t[0] !in "!^"
    ensures IsPiece(OneOf(mark, Ones(t)))
  {
    assert Ones(t)[1..] == Ones(t[1..]);
    OnesAreWritten(t[1..]);
  }

  lemma {:induction false} OnesAreWritten(t: string)
    requires forall k | 0 <= k < |t| :: IsOrdinary(t[k])
    ensures AreWritten(Ones(t))
  {
    if t != "" {
      assert Ones(t)[1..] == Ones(t[1..]);
      OnesAreWritten(t[1..]);
    }
  }

  lemma OnesListed(t: string, c: char)
    ensures Listed(Ones(t), c) <==> c in t
  {
    if c in t {
      var k :| 0 <= k < |t| && t[k] == c;
      assert Covers(Ones(t)[k], c);
    }
  }

  /** A range accepts the characters between its ends. */
  lemma ListOfRange(a: char, b: char, s: string)
    requires a !in "!^[\\" && b !in "[]\\"
    ensures var p := ['[', a, '-', b, ']'];
            Read(p, 0).Some? && (Matches(Read(p, 0).value, s) <==> |s| == 1 && a <= s[0] <= b)
  {
    var members := [Span(a, b)];
    assert ListText(members) == MemberText(members[0]) + ListText(members[1..]) == [a, '-', b];
    assert "[" + ("" + ([a, '-', b] + "]")) == ['[', a, '-', b, ']'];
    OneListMeans("", members, s);
    hide Read, Matches, ListText;
    if s != "" {
      assert Covers(members[0], s[0]) <==> a <= s[0] <= b;
    }
  }
}
