/**
 The argument permuter of func_libs/fx_getopt.h: short options, PERMUTE ordering.

 The class below is the resumable scanner with its static variables; the function
 `Scan` is the reference: one left-to-right pass over an argument list that is
 never reordered.
 */
module Getopt {
  import opened Wrappers

  // ----- the reference scanner -----

  datatype Kind = Unknown | NoArgument | RequiredArgument | OptionalArgument

  /** What one call reports: the returned character, optarg, and optopt where the call sets it. */
  datatype Event = Event(ret: char, arg: Option<string>, bad: Option<char>)

  /** The outcome of a scan: what the calls report, which elements are options or their arguments,
      and which are not; the latter two in their original order. */
  datatype Scanned = Scanned(events: seq<Event>, opts: seq<string>, nons: seq<string>)

  /** strchr, with |s| for "not there". */
  function IndexOf(s: string, c: char): (i: nat)
    ensures i <= |s|
    ensures i < |s| ==> s[i] == c
    ensures c !in s[..i]
  {
    if s == "" || s[0] == c then 0
    else
      var i := IndexOf(s[1..], c) + 1;
      assert s[..i] == [s[0]] + s[1..][..i - 1];
      i
  }

  function CharAt(s: string, i: nat): char {
    if i < |s| then s[i] else '\0'
  }

  function KindOf(optstring: string, c: char): Kind {
    var i := IndexOf(optstring, c);
    if i == |optstring| || c == ':' then Unknown
    else if CharAt(optstring, i + 1) != ':' then NoArgument
    else if CharAt(optstring, i + 2) == ':' then OptionalArgument
    else RequiredArgument
  }

  predicate IsNonOption(a: string) {
    CharAt(a, 0) != '-' || CharAt(a, 1) == '\0'
  }

  /** What is returned for a missing argument. */
  function MissingCode(optstring: string): char {
    if CharAt(optstring, 0) == ':' then ':' else '?'
  }

  function ReportOption(e: Event, opts: seq<string>, s: Scanned): Scanned {
    Scanned([e] + s.events, opts + s.opts, s.nons)
  }

  /** One pass over `args`; a non-empty `cluster` is what is left of the option characters of args[0]. */
  function Scan(cluster: string, args: seq<string>, optstring: string): (s: Scanned)
    requires cluster != "" ==> args != []
    decreases |args|, if cluster == "" then 1 else 0, 2 * |cluster|
  {
    if cluster == "" then
      if args == [] then Scanned([], [], [])
      else if IsNonOption(args[0]) then
        var s := Scan("", args[1..], optstring);
        s.(nons := [args[0]] + s.nons)
      else if args[0] == "--" then Scanned([], [args[0]], args[1..])
      else Scan(args[0][1..], args, optstring)
    else
      var c, text, rest := cluster[0], cluster[1..], args[1..];
      match KindOf(optstring, c)
      case Unknown => ScanOn(Event('?', None, Some(c)), text, args, optstring)
      case NoArgument => ScanOn(Event(c, None, None), text, args, optstring)
      case OptionalArgument =>
        ReportOption(Event(c, if text != "" then Some(text) else None, None), [args[0]], Scan("", rest, optstring))
      case RequiredArgument =>
        if text != "" then ReportOption(Event(c, Some(text), None), [args[0]], Scan("", rest, optstring))
        else if rest != [] then
          ReportOption(Event(c, Some(rest[0]), None), args[..2], Scan("", rest[1..], optstring))
        else ReportOption(Event(MissingCode(optstring), None, Some(c)), [args[0]], Scan("", rest, optstring))
  }

  /** After an option character without argument: the rest of the cluster, or the next element. */
  function ScanOn(e: Event, text: string, args: seq<string>, optstring: string): Scanned
    requires args != []
    decreases |args|, 0, 2 * |text| + 1
  {
    if text == "" then ReportOption(e, [args[0]], Scan("", args[1..], optstring))
    else ReportOption(e, [], Scan(text, args, optstring))
  }

  /** The option strings of the model: PERMUTE ordering, and no "W;". */
  predicate IsPlain(optstring: string) {
    && CharAt(optstring, 0) != '-' && CharAt(optstring, 0) != '+'
    && (var i := IndexOf(optstring, 'W'); CharAt(optstring, i) == 'W' ==> CharAt(optstring, i + 1) != ';')
  }

  // ----- the block exchange -----

  /** `now` is `was` with the runs of length n at i and j swapped. */
  ghost predicate RunsSwapped(was: seq<string>, now: seq<string>, i: int, j: int, n: int) {
    && |now| == |was| && 0 <= n && 0 <= i && i + n <= j && j + n <= |was|
    && (forall x {:trigger now[x]} | i <= x < i + n :: now[x] == was[x + (j - i)])
    && (forall x {:trigger now[x]} | j <= x < j + n :: now[x] == was[x - (j - i)])
    && (forall x {:trigger now[x]} | 0 <= x < |was| && !(i <= x < i + n) && !(j <= x < j + n) :: now[x] == was[x])
  }

  /** Exchanging [bottom, middle) with [middle, top) in `a` would give `goal`, which `a` already
      agrees with outside [bottom, top). */
  ghost predicate Owed(a: seq<string>, goal: seq<string>, bottom: int, middle: int, top: int) {
    && 0 <= bottom <= middle <= top <= |a| == |goal|
    && (forall x {:trigger goal[x]} | 0 <= x < bottom || top <= x < |a| :: goal[x] == a[x])
    && (forall x {:trigger goal[x]} | bottom <= x < bottom + (top - middle) :: goal[x] == a[x + (middle - bottom)])
    && (forall x {:trigger goal[x]} | bottom + (top - middle) <= x < top :: goal[x] == a[x - (top - middle)])
  }

  method SwapRuns(a: array<string>, i: nat, j: nat, n: nat)
    requires i + n <= j && j + n <= a.Length
    modifies a
    ensures RunsSwapped(old(a[..]), a[..], i, j, n)
  {
    var k := 0;
    while k < n
      invariant k <= n
      invariant RunsSwapped(old(a[..]), a[..], i, j, k)
    {
      var tem := a[i + k];
      a[i + k] := a[j + k];
      a[j + k] := tem;
      k := k + 1;
    }
  }

  /** The short block is the lower one: it goes to the far end. */
  lemma SwapUpper(was: seq<string>, a: seq<string>, goal: seq<string>, bottom: int, middle: int, top: int)
    requires Owed(was, goal, bottom, middle, top) && top - middle > middle - bottom
    requires RunsSwapped(was, a, bottom, top - (middle - bottom), middle - bottom)
    ensures Owed(a, goal, bottom, middle, top - (middle - bottom))
  {
  }

  /** The short block is the upper one: it goes to the near end. */
  lemma SwapLower(was: seq<string>, a: seq<string>, goal: seq<string>, bottom: int, middle: int, top: int)
    requires Owed(was, goal, bottom, middle, top) && top - middle <= middle - bottom
    requires RunsSwapped(was, a, bottom, middle, top - middle)
    ensures Owed(a, goal, bottom + (top - middle), middle, top)
  {
  }

  function Exchanged(a: seq<string>, first: nat, last: nat, optind: nat): seq<string>
    requires first <= last <= optind <= |a|
  {
    a[..first] + a[last..optind] + a[first..last] + a[optind..]
  }

  lemma ExchangeOwed(a: seq<string>, first: nat, last: nat, optind: nat)
    requires first <= last <= optind <= |a|
    ensures Owed(a, Exchanged(a, first, last, optind), first, last, optind)
  {
  }

  /** Nothing is owed between an empty block and its neighbour. */
  lemma OwedNothing(a: seq<string>, goal: seq<string>, bottom: int, middle: int, top: int)
    requires Owed(a, goal, bottom, middle, top) && (bottom == middle || middle == top)
    ensures a == goal
  {
    assert forall x | 0 <= x < |a| :: a[x] == goal[x];
  }

  /** The lower block is shorter: it goes to its final place at the top. */
  method SwapWithUpper(a: array<string>, bottom: nat, middle: nat, top: nat, ghost goal: seq<string>)
    requires Owed(a[..], goal, bottom, middle, top) && top - middle > middle - bottom
    modifies a
    ensures Owed(a[..], goal, bottom, middle, top - (middle - bottom))
  {
    ghost var was := a[..];
    SwapRuns(a, bottom, top - (middle - bottom), middle - bottom);
    SwapUpper(was, a[..], goal, bottom, middle, top);
  }

  /** The upper block is not longer: it goes to its final place at the bottom. */
  method SwapWithLower(a: array<string>, bottom: nat, middle: nat, top: nat, ghost goal: seq<string>)
    requires Owed(a[..], goal, bottom, middle, top) && top - middle <= middle - bottom
    modifies a
    ensures Owed(a[..], goal, bottom + (top - middle), middle, top)
  {
    ghost var was := a[..];
    SwapRuns(a, bottom, middle, top - middle);
    SwapLower(was, a[..], goal, bottom, middle, top);
  }

  /** Exchanges the blocks [first, last) and [last, optind) in place, the shorter one first. */
  method SwapBlocks(a: array<string>, first: nat, last: nat, optind: nat, ghost goal: seq<string>)
    requires Owed(a[..], goal, first, last, optind)
    modifies a
    ensures a[..] == goal
  {
    var bottom, middle, top := first, last, optind;
    while top > middle > bottom
      invariant first <= bottom <= middle <= top <= optind
      invariant Owed(a[..], goal, bottom, middle, top)
      decreases top - bottom
    {
      if top - middle > middle - bottom {
        SwapWithUpper(a, bottom, middle, top, goal);
        top := top - (middle - bottom);
      } else {
        SwapWithLower(a, bottom, middle, top, goal);
        bottom := bottom + (top - middle);
      }
    }
    OwedNothing(a[..], goal, bottom, middle, top);
  }

  // ----- the resumable scanner -----

  class Scanner {
    const argv: array<string>
    var optind: nat
    var nextchar: string         // "" stands for NULL and for the end of an element alike
    var optarg: Option<string>
    var optopt: char
    var initialized: bool
    var firstNonopt: nat
    var lastNonopt: nat

    constructor (argv: array<string>)
      ensures this.argv == argv && Valid() && Fresh()
      ensures Opts() == [] && Nons() == [] && nextchar == "" && optind == 1
    {
      this.argv := argv;
      optind, nextchar, optarg, optopt := 1, "", None, '?';
      initialized, firstNonopt, lastNonopt := false, 0, 0;
    }

    ghost predicate Fresh()
      reads this
    {
      !initialized || optind == 0
    }

    /** The bounds of the skipped block, moved back with optind as the next call would. */
    ghost function Last(): nat
      reads this
    {
      if Fresh() then 1 else if lastNonopt > optind then optind else lastNonopt
    }

    ghost function First(): nat
      reads this
    {
      if Fresh() then 1 else if firstNonopt > optind then optind else firstNonopt
    }

    ghost function Index(): nat
      reads this
    {
      if Fresh() then 1 else optind
    }

    ghost predicate Valid()
      reads this, argv
    {
      && (Fresh() ==> optind <= 1)
      && (argv.Length > 0 ==> 1 <= First() <= Last() <= Index() <= argv.Length)
      && (argv.Length == 0 ==> Fresh())
      && (nextchar != "" && !Fresh() ==> optind < argv.Length && lastNonopt <= optind && firstNonopt <= optind)
    }

    /** The option elements passed so far, in order. */
    ghost function Opts(): seq<string>
      requires Valid()
      reads this, argv
    {
      if argv.Length == 0 then [] else argv[1..First()] + argv[Last()..Index()]
    }

    /** The non-options skipped so far, in order. */
    ghost function Nons(): seq<string>
      requires Valid()
      reads this, argv
    {
      if argv.Length == 0 then [] else argv[First()..Last()]
    }

    /** What the reference scanner still has to say about the elements not yet passed. */
    ghost function Pending(optstring: string): Scanned
      requires Valid()
      reads this, argv
    {
      if argv.Length == 0 then Scanned([], [], [])
      else Scan(if Fresh() then "" else nextchar, argv[Index()..], optstring)
    }

    /** All that the scan will have found in the end. */
    ghost function Whole(optstring: string): Scanned
      requires Valid()
      reads this, argv
    {
      var s := Pending(optstring);
      Scanned(s.events, Opts() + s.opts, Nons() + s.nons)
    }

    /** exchange */
    method Exchange()
      requires firstNonopt <= lastNonopt <= optind <= argv.Length
      modifies argv, this`firstNonopt, this`lastNonopt
      ensures argv[..] == Exchanged(old(argv[..]), old(firstNonopt), old(lastNonopt), optind)
      ensures firstNonopt == old(firstNonopt) + (optind - old(lastNonopt)) && lastNonopt == optind
    {
      ExchangeOwed(argv[..], firstNonopt, lastNonopt, optind);
      SwapBlocks(argv, firstNonopt, lastNonopt, optind, Exchanged(argv[..], firstNonopt, lastNonopt, optind));
      firstNonopt := firstNonopt + (optind - lastNonopt);
      lastNonopt := optind;
    }

    /** Moves the skipped block next to optind when options have been passed since. */
    method BringTogether()
      requires 1 <= firstNonopt <= lastNonopt <= optind <= argv.Length
      modifies argv, this`firstNonopt, this`lastNonopt
      ensures 1 <= firstNonopt <= optind
      ensures argv[1..firstNonopt] == old(argv[1..firstNonopt] + argv[lastNonopt..optind])
      ensures argv[firstNonopt..optind] == old(argv[firstNonopt..lastNonopt])
      ensures argv[0] == old(argv[0]) && argv[optind..] == old(argv[optind..])
    {
      if firstNonopt != lastNonopt && lastNonopt != optind {
        ExchangedSlices(argv[..], firstNonopt, lastNonopt, optind);
        Exchange();
      } else if lastNonopt != optind {
        firstNonopt := optind;
      }
    }

    /** Skips the non-options at optind. */
    method SkipRun(ghost optstring: string)
      requires 1 <= firstNonopt <= optind <= argv.Length
      modifies this`lastNonopt, this`optind
      ensures firstNonopt <= lastNonopt == optind <= argv.Length && old(optind) <= optind
      ensures var s := Scan("", argv[optind..], optstring);
              Scan("", old(argv[optind..]), optstring) == s.(nons := argv[old(optind)..optind] + s.nons)
      ensures optind < argv.Length ==> !IsNonOption(argv[optind])
    {
      ghost var all := argv[..];
      ghost var from := optind;
      while optind < argv.Length && IsNonOption(argv[optind])
        modifies this`optind
        invariant from <= optind <= argv.Length
        invariant PassedNonOptions(all, from, optind, optstring)
      {
        PassOne(all, from, optind, optstring);
        optind := optind + 1;
      }
      assert argv[optind..] == all[optind..] && argv[from..optind] == all[from..optind];
      lastNonopt := optind;
    }

    /** The block at optind is settled: nothing to clamp. */
    ghost predicate Settled()
      reads this, argv
    {
      !Fresh() && 1 <= firstNonopt <= lastNonopt <= optind <= argv.Length
    }

    /** The end of the scan: the elements are rearranged and optind is at the first non-option. */
    ghost predicate Finished(program: string, w: Scanned)
      reads this, argv
    {
      argv[..] == [program] + w.opts + w.nons && optind == 1 + |w.opts| && nextchar == ""
    }

    lemma FinishedLike(program: string, w: Scanned, w': Scanned)
      requires Finished(program, w) && w.opts == w'.opts && w.nons == w'.nons
      ensures Finished(program, w')
    {
    }

    /** The skipped block ends at optind, and `w` is what the scan will have found in the end. */
    ghost predicate Together(w: Scanned, optstring: string)
      reads this, argv
    {
      && 1 <= firstNonopt <= lastNonopt == optind <= argv.Length
      && var s := Scan("", argv[optind..], optstring);
         w == Scanned(s.events, argv[1..firstNonopt] + s.opts, argv[firstNonopt..optind] + s.nons)
    }

    /** `w` is what the scan will have found in the end, in a settled state. */
    ghost predicate Ahead(w: Scanned, optstring: string)
      requires Settled() && (nextchar != "" ==> optind < argv.Length)
      reads this, argv
    {
      var s := Scan(nextchar, argv[optind..], optstring);
      w == Scanned(s.events, argv[1..firstNonopt] + argv[lastNonopt..optind] + s.opts, argv[firstNonopt..lastNonopt] + s.nons)
    }

    lemma SameRest(s: Scanned, k: seq<string>, s': Scanned, opts: seq<string>, nons: seq<string>, w: Scanned)
      requires w == Scanned(s.events, opts + s.opts, nons + s.nons) && s == s'.(nons := k + s'.nons)
      ensures w == Scanned(s'.events, opts + s'.opts, (nons + k) + s'.nons)
    {
    }

    method SkipNonOptions(ghost w: Scanned, ghost optstring: string)
      requires Settled() && nextchar == "" && Ahead(w, optstring)
      modifies argv, this`firstNonopt, this`lastNonopt, this`optind
      ensures argv[0] == old(argv[0]) && Together(w, optstring)
      ensures optind < argv.Length ==> !IsNonOption(argv[optind])
    {
      ghost var s := Scan("", argv[optind..], optstring);
      BringTogether();
      ghost var o := optind;
      ghost var all := argv[..];
      ghost var opts, nons := argv[1..firstNonopt], argv[firstNonopt..o];
      assert opts == all[1..firstNonopt] && nons == all[firstNonopt..o];
      SkipRun(optstring);
      assert argv[..] == all;
      assert all[firstNonopt..optind] == all[firstNonopt..o] + all[o..optind];
      assert argv[firstNonopt..optind] == all[firstNonopt..optind] && argv[o..optind] == all[o..optind];
      assert argv[1..firstNonopt] == all[1..firstNonopt];
      SameRest(s, argv[o..optind], Scan("", argv[optind..], optstring), opts, nons, w);
    }

    /** Everything is passed: back over the skipped block. */
    method Finish(ghost w: Scanned)
      requires 1 <= firstNonopt <= lastNonopt == optind == argv.Length && nextchar == "" && !Fresh()
      requires w.opts == argv[1..firstNonopt] && w.nons == argv[firstNonopt..]
      modifies this`optind
      ensures Valid() && Finished(argv[0], w)
    {
      assert argv[..] == [argv[0]] + argv[1..firstNonopt] + argv[firstNonopt..];
      if firstNonopt != lastNonopt {
        optind := firstNonopt;
      }
    }

    /** The argument "--": passed like an option; everything behind it is a non-option. */
    method EndOfOptions(ghost optstring: string)
      requires 1 <= firstNonopt <= lastNonopt == optind < argv.Length && argv[optind] == "--"
      modifies argv, this`firstNonopt, this`lastNonopt, this`optind
      ensures 1 <= firstNonopt <= lastNonopt == optind == argv.Length && argv[0] == old(argv[0])
      ensures argv[1..firstNonopt] == old(argv[1..firstNonopt]) + ["--"]
      ensures argv[firstNonopt..] == old(argv[firstNonopt..optind] + argv[optind + 1..])
    {
      optind := optind + 1;
      if firstNonopt != lastNonopt && lastNonopt != optind {
        ExchangedSlices(argv[..], firstNonopt, lastNonopt, optind);
        ghost var was := argv[..];
        Exchange();
        assert argv[firstNonopt..] == argv[firstNonopt..optind] + argv[optind..];
      } else if firstNonopt == lastNonopt {
        firstNonopt := optind;
      }
      lastNonopt := argv.Length;
      optind := argv.Length;
    }

    /** The argument "--" after the skipped block is passed, and with it everything behind it. */
    method PassTerminator(ghost w: Scanned, ghost optstring: string)
      requires Together(w, optstring) && optind < argv.Length && argv[optind] == "--"
      modifies argv, this`firstNonopt, this`lastNonopt, this`optind
      ensures argv[0] == old(argv[0]) && AtEnd(w)
    {
      ghost var rest := argv[optind..];
      assert rest[0] == "--" && rest[1..] == argv[optind + 1..];
      assert Scan("", rest, optstring) == Scanned([], ["--"], rest[1..]);
      EndOfOptions(optstring);
    }

    /** Everything is passed, and the skipped block is what is left. */
    ghost predicate AtEnd(w: Scanned)
      reads this, argv
    {
      && 1 <= firstNonopt <= lastNonopt == optind == argv.Length
      && w.events == [] && w.opts == argv[1..firstNonopt] && w.nons == argv[firstNonopt..]
    }

    lemma TogetherAtEnd(w: Scanned, optstring: string)
      requires Together(w, optstring) && optind == argv.Length
      ensures AtEnd(w)
    {
      assert argv[optind..] == [];
      assert argv[firstNonopt..optind] == argv[firstNonopt..];
    }

    lemma TogetherAhead(w: Scanned, optstring: string, text: string)
      requires Together(w, optstring) && optind < argv.Length && !IsNonOption(argv[optind]) && argv[optind] != "--"
      requires text == argv[optind][1..]
      ensures var s := Scan(text, argv[optind..], optstring);
              w == Scanned(s.events, argv[1..firstNonopt] + argv[lastNonopt..optind] + s.opts, argv[firstNonopt..lastNonopt] + s.nons)
    {
      assert argv[optind..][0] == argv[optind];
      assert argv[1..firstNonopt] + argv[lastNonopt..optind] == argv[1..firstNonopt];
    }

    /** Advances to the next option element; `done` if there is none. */
    method Advance(ghost w: Scanned, ghost optstring: string) returns (done: bool)
      requires Settled() && nextchar == "" && Ahead(w, optstring)
      modifies argv, this`firstNonopt, this`lastNonopt, this`optind, this`nextchar
      ensures argv[0] == old(argv[0])
      ensures done ==> Valid() && w.events == [] && Finished(argv[0], w)
      ensures !done ==> Settled() && nextchar != "" && optind < argv.Length && Ahead(w, optstring)
    {
      SkipNonOptions(w, optstring);
      if optind != argv.Length && argv[optind] == "--" {
        PassTerminator(w, optstring);
      } else if optind == argv.Length {
        TogetherAtEnd(w, optstring);
      }
      if optind == argv.Length {
        Finish(w);
        return true;
      }
      TogetherAhead(w, optstring, argv[optind][1..]);
      nextchar := argv[optind][1..];
      return false;
    }

    /** Decodes one option character of the element at optind. */
    method DecodeCharacter(optstring: string) returns (c: char)
      requires nextchar != "" && optind < argv.Length && optarg == None
      modifies this`optind, this`nextchar, this`optarg, this`optopt
      ensures var (e, n, text) := FirstOf(old(nextchar), old(argv[optind..]), optstring);
              && c == e.ret && optarg == e.arg && optopt == (if e.bad.Some? then e.bad.value else old(optopt))
              && optind == old(optind) + n && nextchar == text
    {
      c := nextchar[0];
      nextchar := nextchar[1..];
      var temp := IndexOf(optstring, c);
      if nextchar == "" {
        optind := optind + 1;
      }
      if temp == |optstring| || c == ':' {
        optopt := c;
        c := '?';
      } else if CharAt(optstring, temp + 1) == ':' {
        if CharAt(optstring, temp + 2) == ':' {
          if nextchar != "" {
            optarg := Some(nextchar);
            optind := optind + 1;
          } else {
            optarg := None;
          }
        } else if nextchar != "" {
          optarg := Some(nextchar);
          optind := optind + 1;
        } else if optind == argv.Length {
          optopt := c;
          c := if CharAt(optstring, 0) == ':' then ':' else '?';
        } else {
          optarg := Some(argv[optind]);
          optind := optind + 1;
        }
        nextchar := "";
      }
    }

    method Decode(ghost w: Scanned, optstring: string) returns (c: char)
      requires Settled() && nextchar != "" && optind < argv.Length && Ahead(w, optstring) && optarg == None
      modifies this`optind, this`nextchar, this`optarg, this`optopt
      ensures Settled() && (nextchar != "" ==> optind < argv.Length)
      ensures w.events != [] && Ahead(w.(events := w.events[1..]), optstring)
      ensures var e := w.events[0];
              c == e.ret && optarg == e.arg && optopt == if e.bad.Some? then e.bad.value else old(optopt)
    {
      hide Scan, FirstOf, KindOf;
      ghost var cluster, index := nextchar, optind;
      ghost var (e, n, text) := FirstOf(cluster, argv[index..], optstring);
      ScanFirst(cluster, argv[index..], optstring);
      c := DecodeCharacter(optstring);
      assert argv[index..][..n] == argv[index..optind] && argv[index..][n..] == argv[optind..];
      assert argv[lastNonopt..optind] == argv[lastNonopt..index] + argv[index..optind];
    }

    lemma SettledWhole(w: Scanned, optstring: string)
      requires Settled() && (nextchar != "" ==> optind < argv.Length) && Ahead(w, optstring)
      ensures Valid() && Whole(optstring) == w
    {
    }

    /** The start of a call: the first one initializes, and a block beyond optind is moved back. */
    method Begin(ghost w: Scanned, ghost optstring: string)
      requires Valid() && argv.Length > 0 && w == Whole(optstring)
      modifies this
      ensures Settled() && (nextchar != "" ==> optind < argv.Length) && Ahead(w, optstring)
      ensures optarg == None && optopt == old(optopt)
    {
      hide Scan;
      optarg := None;
      if optind == 0 || !initialized {
        if optind == 0 {
          optind := 1;
        }
        firstNonopt, lastNonopt := optind, optind;
        nextchar := "";
        initialized := true;
      }
      if nextchar == "" {
        if lastNonopt > optind {
          lastNonopt := optind;
        }
        if firstNonopt > optind {
          firstNonopt := optind;
        }
      }
    }

    /** fx_getopt: one call.  With `w` what the scan will have found in the end, it reports the first
        event of w, or, when there is none, leaves argv rearranged and returns None (-1 in C). */
    method Next(optstring: string, ghost w: Scanned) returns (ret: Option<char>)
      requires Valid() && IsPlain(optstring) && w == Whole(optstring)
      modifies this, argv
      ensures Valid() && (argv.Length > 0 ==> argv[0] == old(argv[0]))
      ensures w.events == [] ==>
                && ret == None && optopt == old(optopt)
                && (argv.Length > 0 ==> Finished(argv[0], w) && optarg == None)
      ensures w.events != [] ==>
                var e := w.events[0];
                && ret == Some(e.ret) && optarg == e.arg
                && optopt == (if e.bad.Some? then e.bad.value else old(optopt))
                && Whole(optstring) == w.(events := w.events[1..])
    {
      hide Scan;
      if argv.Length < 1 {
        return None;
      }
      Begin(w, optstring);
      if nextchar == "" {
        var done := Advance(w, optstring);
        if done {
          return None;
        }
      }
      var c := Decode(w, optstring);
      SettledWhole(w.(events := w.events[1..]), optstring);
      return Some(c);
    }
  }

  /** What the caller of fx_getopt sees of an event. */
  function Seen(events: seq<Event>): (r: seq<(char, Option<string>)>)
    ensures |r| == |events|
  {
    if events == [] then [] else [(events[0].ret, events[0].arg)] + Seen(events[1..])
  }

  lemma SeenOf(events: seq<Event>)
    ensures Seen(events) == if events == [] then [] else [(events[0].ret, events[0].arg)] + Seen(events[1..])
  {
  }

  /** Calls fx_getopt until it returns -1. */
  method CallUntilDone(g: Scanner, optstring: string, ghost w0: Scanned) returns (seen: seq<(char, Option<string>)>)
    requires g.Valid() && g.argv.Length > 0 && IsPlain(optstring) && w0 == g.Whole(optstring)
    modifies g, g.argv
    ensures seen == Seen(w0.events) && g.Finished(old(g.argv[0]), w0)
  {
    hide *;
    seen := [];
    ghost var w := w0;
    var ret := g.Next(optstring, w);
    while ret != None
      invariant g.Valid() && g.argv[0] == old(g.argv[0]) && w.opts == w0.opts && w.nons == w0.nons
      invariant seen + Seen(w.events) == Seen(w0.events)
      invariant ret == None <==> w.events == []
      invariant ret == None ==> g.Finished(g.argv[0], w)
      invariant ret != None ==> ret == Some(w.events[0].ret) && g.optarg == w.events[0].arg
                                && g.Whole(optstring) == w.(events := w.events[1..])
      decreases |w.events|
    {
      seen := seen + [(ret.value, g.optarg)];
      SeenOf(w.events);
      w := w.(events := w.events[1..]);
      ret := g.Next(optstring, w);
    }
    SeenOf(w.events);
    g.FinishedLike(g.argv[0], w, w0);
  }

  /** A program that parses its command line: the calls report what one left-to-right scan of the
      original argv reports, and leave the options and their arguments first and the non-options
      behind them, from optind on, both in their original order. */
  method ParseAll(argv: array<string>, optstring: string) returns (seen: seq<(char, Option<string>)>, optind: nat)
    requires argv.Length > 0 && IsPlain(optstring)
    modifies argv
    ensures var s := Scan("", old(argv[1..]), optstring);
            seen == Seen(s.events) && argv[..] == [old(argv[0])] + s.opts + s.nons && optind == 1 + |s.opts|
  {
    ghost var s := Scan("", argv[1..], optstring);
    var g := new Scanner(argv);
    seen := CallUntilDone(g, optstring, s);
    optind := g.optind;
  }

  /** The event of the first character of a cluster, how many elements it completes, and the
      characters left. */
  function FirstOf(cluster: string, args: seq<string>, optstring: string): (Event, nat, string)
    requires cluster != "" && args != []
    ensures FirstOf(cluster, args, optstring).1 <= |args|
  {
    var c, text := cluster[0], cluster[1..];
    match KindOf(optstring, c)
    case Unknown => (Event('?', None, Some(c)), if text == "" then 1 else 0, text)
    case NoArgument => (Event(c, None, None), if text == "" then 1 else 0, text)
    case OptionalArgument => (Event(c, if text != "" then Some(text) else None, None), 1, "")
    case RequiredArgument =>
      if text != "" then (Event(c, Some(text), None), 1, "")
      else if |args| > 1 then (Event(c, Some(args[1]), None), 2, "")
      else (Event(MissingCode(optstring), None, Some(c)), 1, "")
  }

  lemma ScanFirst(cluster: string, args: seq<string>, optstring: string)
    requires cluster != "" && args != []
    ensures var (e, n, text) := FirstOf(cluster, args, optstring);
            && (text != "" ==> args[n..] != [])
            && Scan(cluster, args, optstring) == ReportOption(e, args[..n], Scan(text, args[n..], optstring))
  {
    assert args[..1] == [args[0]] && args[0..] == args && args[..0] == [];
    if |args| > 1 {
      assert args[1..][0] == args[1] && args[1..][1..] == args[2..];
    } else {
      assert args[1..] == [];
    }
  }

  /** Everything in [from, i) was a non-option. */
  ghost predicate PassedNonOptions(all: seq<string>, from: nat, i: nat, optstring: string)
    requires from <= i <= |all|
  {
    var s := Scan("", all[i..], optstring);
    Scan("", all[from..], optstring) == s.(nons := all[from..i] + s.nons)
  }

  lemma PassOne(all: seq<string>, from: nat, i: nat, optstring: string)
    requires from <= i < |all| && IsNonOption(all[i]) && PassedNonOptions(all, from, i, optstring)
    ensures PassedNonOptions(all, from, i + 1, optstring)
  {
    assert all[i..][1..] == all[i + 1..];
    assert all[from..i + 1] == all[from..i] + [all[i]];
  }

  lemma ExchangedSlices(a: seq<string>, first: nat, last: nat, optind: nat)
    requires 1 <= first <= last <= optind <= |a|
    ensures var b, f := Exchanged(a, first, last, optind), first + (optind - last);
            && |b| == |a| && b[1..f] == a[1..first] + a[last..optind] && b[f..optind] == a[first..last]
            && b[0] == a[0] && b[optind..] == a[optind..]
  {
  }

  // ----- what the reference scan means -----

  /** The elements of `args` whose mark is `b`, in order. */
  function Select(args: seq<string>, marks: seq<bool>, b: bool): seq<string>
    requires |args| == |marks|
  {
    if args == [] then []
    else if marks[0] == b then [args[0]] + Select(args[1..], marks[1..], b)
    else Select(args[1..], marks[1..], b)
  }

  /** The scan splits its elements into options and non-options and keeps the order of each. */
  lemma {:induction false} ScanSplits(cluster: string, args: seq<string>, optstring: string) returns (marks: seq<bool>)
    requires cluster != "" ==> args != []
    ensures |marks| == |args|
    ensures Scan(cluster, args, optstring).opts == Select(args, marks, true)
    ensures Scan(cluster, args, optstring).nons == Select(args, marks, false)
    decreases |args|, if cluster == "" then 1 else 0, |cluster|
  {
    if cluster == "" {
      if args == [] {
        marks := [];
      } else if IsNonOption(args[0]) {
        var m := ScanSplits("", args[1..], optstring);
        marks := [false] + m;
        assert marks[1..] == m;
      } else if args[0] == "--" {
        var m := seq(|args| - 1, i => false);
        AllNonOptions(args[1..], m);
        marks := [true] + m;
        assert marks[1..] == m;
      } else {
        marks := ScanSplits(args[0][1..], args, optstring);
      }
    } else {
      var (e, n, text) := FirstOf(cluster, args, optstring);
      ScanFirst(cluster, args, optstring);
      var m := ScanSplits(text, args[n..], optstring);
      marks := seq(n, i => true) + m;
      SelectPrefix(args, n, m);
    }
  }

  lemma {:induction false} AllNonOptions(args: seq<string>, marks: seq<bool>)
    requires |args| == |marks| && forall i | 0 <= i < |marks| :: !marks[i]
    ensures Select(args, marks, true) == [] && Select(args, marks, false) == args
  {
    if args != [] {
      AllNonOptions(args[1..], marks[1..]);
    }
  }

  lemma {:induction false} SelectPrefix(args: seq<string>, n: nat, m: seq<bool>)
    requires n <= |args| && |m| == |args| - n
    ensures var marks := seq(n, i => true) + m;
            && Select(args, marks, true) == args[..n] + Select(args[n..], m, true)
            && Select(args, marks, false) == Select(args[n..], m, false)
  {
    var marks := seq(n, i => true) + m;
    if n == 0 {
      assert marks == m && args[0..] == args;
    } else {
      assert args[1..][n - 1..] == args[n..];
      assert args[..n] == [args[0]] + args[1..][..n - 1];
      assert marks[1..] == seq(n - 1, i => true) + m;
      SelectPrefix(args[1..], n - 1, m);
    }
  }

  lemma {:induction false} SelectPermutes(args: seq<string>, marks: seq<bool>)
    requires |args| == |marks|
    ensures multiset(Select(args, marks, true) + Select(args, marks, false)) == multiset(args)
  {
    if args != [] {
      SelectPermutes(args[1..], marks[1..]);
      assert args == [args[0]] + args[1..];
    }
  }

  /** The rearranged argv is a permutation of the original one. */
  lemma ScanPermutes(args: seq<string>, optstring: string)
    ensures var s := Scan("", args, optstring); multiset(s.opts + s.nons) == multiset(args)
  {
    var marks := ScanSplits("", args, optstring);
    SelectPermutes(args, marks);
  }

  /** The scan ends with an option whose argument is missing. */
  predicate LacksArgument(cluster: string, args: seq<string>, optstring: string)
    requires cluster != "" ==> args != []
    decreases |args|, if cluster == "" then 1 else 0, |cluster|
  {
    if cluster == "" then
      args != [] && if IsNonOption(args[0]) then LacksArgument("", args[1..], optstring)
                    else args[0] != "--" && LacksArgument(args[0][1..], args, optstring)
    else
      var (e, n, text) := FirstOf(cluster, args, optstring);
      if KindOf(optstring, cluster[0]) == RequiredArgument && |cluster| == 1 && |args| == 1 then true
      else
        assert text != "" ==> args[n..] != [];
        LacksArgument(text, args[n..], optstring)
  }

  lemma {:induction false} SkipAll(nons: seq<string>, optstring: string)
    requires forall a | a in nons :: IsNonOption(a)
    ensures Scan("", nons, optstring) == Scanned([], [], nons)
  {
    if nons != [] {
      SkipAll(nons[1..], optstring);
    }
  }

  /** A cluster is scanned alike before another rest, unless that rest supplies a missing argument. */
  lemma SameFirst(cluster: string, args: seq<string>, again: seq<string>, rest: seq<string>, optstring: string)
    requires cluster != "" && args != [] && again != [] && again[0] == args[0]
    requires KindOf(optstring, cluster[0]) == RequiredArgument && |cluster| == 1 && |args| == 1 ==> |again| == 1
    requires again == args[..FirstOf(cluster, args, optstring).1] + rest
    ensures var (e, n, text) := FirstOf(cluster, args, optstring);
            && (text != "" ==> rest != [])
            && Scan(cluster, again, optstring) == ReportOption(e, args[..n], Scan(text, rest, optstring))
  {
    var (e, n, text) := FirstOf(cluster, args, optstring);
    assert |args| > 1 && n == 2 ==> again[1] == args[1];
    assert FirstOf(cluster, again, optstring) == (e, n, text);
    assert again[..n] == args[..n] && again[n..] == rest;
    ScanFirst(cluster, again, optstring);
  }

  /** Scanning the options of a scan again, with non-options behind them, reports the same events,
      unless the scan ended in want of an argument that the non-options now supply. */
  lemma {:induction false} Rescan(cluster: string, args: seq<string>, optstring: string, pre: seq<string>)
    requires cluster != "" ==> args != []
    requires forall a | a in pre :: IsNonOption(a)
    ensures var s := Scan(cluster, args, optstring); var nons := pre + s.nons;
            && (cluster != "" ==> s.opts + nons != [])
            && (!LacksArgument(cluster, args, optstring) || nons == [] ==>
                  Scan(cluster, s.opts + nons, optstring) == Scanned(s.events, s.opts, nons))
    decreases |args|, if cluster == "" then 1 else 0, 2 * |cluster|
  {
    var s := Scan(cluster, args, optstring);
    var nons := pre + s.nons;
    if cluster == "" {
      if args == [] {
        SkipAll(pre, optstring);
        assert s.opts + nons == pre;
      } else if IsNonOption(args[0]) {
        Rescan("", args[1..], optstring, pre + [args[0]]);
        assert pre + [args[0]] + Scan("", args[1..], optstring).nons == nons;
      } else if args[0] == "--" {
        assert (s.opts + nons)[1..] == nons;
      } else {
        Rescan(args[0][1..], args, optstring, pre);
        OptsStart(args[0][1..], args, optstring);
        assert (s.opts + nons)[0] == args[0];
      }
    } else {
      RescanCluster(cluster, args, optstring, pre);
    }
  }

  lemma {:induction false} OptsStart(cluster: string, args: seq<string>, optstring: string)
    requires cluster != "" && args != []
    ensures var s := Scan(cluster, args, optstring); s.opts != [] && s.opts[0] == args[0]
    decreases |cluster|
  {
    var (e, n, text) := FirstOf(cluster, args, optstring);
    ScanFirst(cluster, args, optstring);
    if n == 0 {
      assert args[0..] == args;
      OptsStart(text, args, optstring);
    }
  }

  lemma {:induction false} RescanCluster(cluster: string, args: seq<string>, optstring: string, pre: seq<string>)
    requires cluster != "" && args != []
    requires forall a | a in pre :: IsNonOption(a)
    ensures var s := Scan(cluster, args, optstring); var nons := pre + s.nons;
            && s.opts + nons != []
            && (!LacksArgument(cluster, args, optstring) || nons == [] ==>
                  Scan(cluster, s.opts + nons, optstring) == Scanned(s.events, s.opts, nons))
    decreases |args|, 0, 2 * |cluster| - 1
  {
    var s := Scan(cluster, args, optstring);
    var nons := pre + s.nons;
    var (e, n, text) := FirstOf(cluster, args, optstring);
    ScanFirst(cluster, args, optstring);
    OptsStart(cluster, args, optstring);
    var s' := Scan(text, args[n..], optstring);
    Rescan(text, args[n..], optstring, pre);
    var again := s.opts + nons;
    if !LacksArgument(cluster, args, optstring) || nons == [] {
      assert again == args[..n] + (s'.opts + nons);
      SameFirst(cluster, args, again, s'.opts + nons, optstring);
    }
  }

  /** The rearranged argv parses like the original one exactly when the scan did not end with a
      missing argument in front of non-options: then the first of these becomes that argument. */
  lemma RearrangedParsesTheSame(args: seq<string>, optstring: string)
    ensures var s := Scan("", args, optstring);
            Scan("", s.opts + s.nons, optstring) == s <==> !LacksArgument("", args, optstring) || s.nons == []
  {
    Rescan("", args, optstring, []);
    assert [] + Scan("", args, optstring).nons == Scan("", args, optstring).nons;
    if LacksArgument("", args, optstring) && Scan("", args, optstring).nons != [] {
      ArgumentSupplied("", args, optstring, []);
    }
  }

  lemma {:induction false} ArgumentSupplied(cluster: string, args: seq<string>, optstring: string, pre: seq<string>)
    requires cluster != "" ==> args != []
    requires LacksArgument(cluster, args, optstring)
    requires pre + Scan(cluster, args, optstring).nons != []
    requires forall a | a in pre :: IsNonOption(a)
    ensures var s := Scan(cluster, args, optstring); var nons := pre + s.nons;
            && (cluster != "" ==> s.opts + nons != [])
            && Scan(cluster, s.opts + nons, optstring).opts == s.opts + nons[..1]
    decreases |args|, if cluster == "" then 1 else 0, 2 * |cluster|
  {
    var s := Scan(cluster, args, optstring);
    var nons := pre + s.nons;
    if cluster == "" {
      if IsNonOption(args[0]) {
        ArgumentSupplied("", args[1..], optstring, pre + [args[0]]);
        assert pre + [args[0]] + Scan("", args[1..], optstring).nons == nons;
      } else {
        ArgumentSupplied(args[0][1..], args, optstring, pre);
        OptsStart(args[0][1..], args, optstring);
        assert (s.opts + nons)[0] == args[0];
      }
    } else {
      SuppliedInCluster(cluster, args, optstring, pre);
    }
  }

  lemma {:induction false} SuppliedInCluster(cluster: string, args: seq<string>, optstring: string, pre: seq<string>)
    requires cluster != "" && args != []
    requires LacksArgument(cluster, args, optstring)
    requires pre + Scan(cluster, args, optstring).nons != []
    requires forall a | a in pre :: IsNonOption(a)
    ensures var s := Scan(cluster, args, optstring); var nons := pre + s.nons;
            s.opts + nons != [] && Scan(cluster, s.opts + nons, optstring).opts == s.opts + nons[..1]
    decreases |args|, 0, 2 * |cluster| - 1
  {
    var s := Scan(cluster, args, optstring);
    var nons := pre + s.nons;
    var (e, n, text) := FirstOf(cluster, args, optstring);
    ScanFirst(cluster, args, optstring);
    var again := s.opts + nons;
    if KindOf(optstring, cluster[0]) == RequiredArgument && |cluster| == 1 && |args| == 1 {
      SupplyNow(cluster, args[0], nons, optstring);
      assert s.opts == args && s.nons == [] && nons == pre;
    } else {
      hide Scan, FirstOf, KindOf;
      OptsStart(cluster, args, optstring);
      ArgumentSupplied(text, args[n..], optstring, pre);
      var s' := Scan(text, args[n..], optstring);
      assert again == args[..n] + (s'.opts + nons);
      SameFirst(cluster, args, again, s'.opts + nons, optstring);
    }
  }

  lemma SupplyNow(cluster: string, a: string, nons: seq<string>, optstring: string)
    requires |cluster| == 1 && KindOf(optstring, cluster[0]) == RequiredArgument
    requires nons != [] && forall b | b in nons[1..] :: IsNonOption(b)
    ensures Scan(cluster, [a] + nons, optstring).opts == [a] + nons[..1]
  {
    var again := [a] + nons;
    ScanFirst(cluster, again, optstring);
    assert again[..2] == [a] + nons[..1] && again[2..] == nons[1..];
    SkipAll(nons[1..], optstring);
  }

  // ----- option strings and command lines as they are written -----

  /** A declaration of an option string; its kind says how many colons stand behind the letter. */
  datatype Declaration = Declaration(letter: char, kind: Kind)

  predicate AreDeclared(ds: seq<Declaration>) {
    forall k | 0 <= k < |ds| :: ds[k].letter != ':' && ds[k].kind != Unknown
  }

  function Declares(ds: seq<Declaration>, c: char): Kind {
    if ds == [] then Unknown else if ds[0].letter == c then ds[0].kind else Declares(ds[1..], c)
  }

  function DeclarationText(d: Declaration): string {
    [d.letter] + if d.kind == OptionalArgument then "::" else if d.kind == RequiredArgument then ":" else ""
  }

  function DeclarationsText(ds: seq<Declaration>): string {
    if ds == [] then "" else DeclarationText(ds[0]) + DeclarationsText(ds[1..])
  }

  /** The option string; a quiet one starts with a colon. */
  function OptionString(quiet: bool, ds: seq<Declaration>): string {
    (if quiet then ":" else "") + DeclarationsText(ds)
  }

  /** The search passes over a part without the character. */
  lemma {:induction false} IndexBehind(pre: string, s: string, c: char)
    requires c !in pre
    ensures IndexOf(pre + s, c) == |pre| + IndexOf(s, c)
  {
    if pre == "" {
      assert pre + s == s;
    } else {
      assert (pre + s)[0] == pre[0] && (pre + s)[1..] == pre[1..] + s;
      IndexBehind(pre[1..], s, c);
    }
  }

  lemma CharBehind(pre: string, s: string, i: nat)
    ensures CharAt(pre + s, |pre| + i) == CharAt(s, i)
  {
  }

  lemma KindBehind(pre: string, s: string, c: char)
    requires c !in pre
    ensures KindOf(pre + s, c) == KindOf(s, c)
  {
    IndexBehind(pre, s, c);
    hide IndexOf;
    CharBehind(pre, s, IndexOf(s, c) + 1);
    CharBehind(pre, s, IndexOf(s, c) + 2);
    hide CharAt;
  }

  /** What stands behind a declaration is no colon. */
  lemma DeclaredFirst(d: Declaration, more: seq<Declaration>)
    requires AreDeclared([d] + more)
    ensures KindOf(DeclarationText(d) + DeclarationsText(more), d.letter) == d.kind
  {
    var text, tail := DeclarationText(d), DeclarationsText(more);
    if more != [] {
      assert ([d] + more)[1] == more[0] && tail[0] == more[0].letter;
    }
    assert ([d] + more)[0] == d && CharAt(tail, 0) != ':';
    assert forall k | 0 <= k < 3 :: CharAt(text + tail, k) == if k < |text| then text[k] else CharAt(tail, k - |text|);
    assert IndexOf(text + tail, d.letter) == 0;
  }

  lemma {:induction false} TextDeclares(ds: seq<Declaration>, c: char)
    requires AreDeclared(ds)
    ensures KindOf(DeclarationsText(ds), c) == if c == ':' then Unknown else Declares(ds, c)
  {
    if ds != [] && c != ':' {
      var d, more := ds[0], ds[1..];
      assert [d] + more == ds;
      if c == d.letter {
        DeclaredFirst(d, more);
      } else {
        KindBehind(DeclarationText(d), DeclarationsText(more), c);
        TextDeclares(more, c);
      }
    }
  }

  lemma {:induction false} ColonUndeclared(ds: seq<Declaration>)
    requires AreDeclared(ds)
    ensures Declares(ds, ':') == Unknown
  {
    if ds != [] {
      ColonUndeclared(ds[1..]);
    }
  }

  /** An option string gives each letter its declared kind, and declares nothing else. */
  lemma StringDeclares(quiet: bool, ds: seq<Declaration>, c: char)
    requires AreDeclared(ds)
    ensures KindOf(OptionString(quiet, ds), c) == Declares(ds, c)
  {
    TextDeclares(ds, c);
    if c == ':' {
      ColonUndeclared(ds);
    } else {
      KindBehind(if quiet then ":" else "", DeclarationsText(ds), c);
    }
  }

  /** How a group of option characters ends: with the last of them, or with an option and its
      argument, in the same element, in the next one, or left away. */
  datatype Tail = Nothing | Attached(c: char, arg: string) | Separate(c: char, arg: string) | Bare(c: char)

  datatype Word = Operand(a: string) | Group(flags: string, tail: Tail)

  /** How a command line ends: with its last word, with `--` and what stands behind it, or with an
      option that lacks its argument. */
  datatype Ending = Plain | Dashes(rest: seq<string>) | Lacking(flags: string, c: char)

  function TailText(tail: Tail): string {
    match tail
    case Nothing => ""
    case Attached(c, arg) => [c] + arg
    case Separate(c, _) => [c]
    case Bare(c) => [c]
  }

  function Elements(w: Word): (e: seq<string>)
    ensures e != []
  {
    match w
    case Operand(a) => [a]
    case Group(flags, tail) =>
      ["-" + (flags + TailText(tail))] + if tail.Separate? then [tail.arg] else []
  }

  function EndingElements(e: Ending): seq<string> {
    match e
    case Plain => []
    case Dashes(rest) => ["--"] + rest
    case Lacking(flags, c) => ["-" + (flags + [c])]
  }

  function CommandLine(words: seq<Word>, e: Ending): seq<string> {
    if words == [] then EndingElements(e) else Elements(words[0]) + CommandLine(words[1..], e)
  }

  predicate AreFlags(flags: string, ds: seq<Declaration>) {
    forall k | 0 <= k < |flags| :: Declares(ds, flags[k]) in {NoArgument, Unknown}
  }

  /** The text behind the hyphen of an element with options. */
  predicate IsGroupText(text: string) {
    text != "" && text[0] != '\0' && text != "-"
  }

  predicate FitsTail(tail: Tail, ds: seq<Declaration>) {
    match tail
    case Nothing => true
    case Attached(c, arg) => Declares(ds, c) in {RequiredArgument, OptionalArgument} && arg != ""
    case Separate(c, _) => Declares(ds, c) == RequiredArgument
    case Bare(c) => Declares(ds, c) == OptionalArgument
  }

  predicate Fits(w: Word, ds: seq<Declaration>) {
    match w
    case Operand(a) => a == "" || a[0] != '-' || a == "-"
    case Group(flags, tail) => AreFlags(flags, ds) && FitsTail(tail, ds) && IsGroupText(flags + TailText(tail))
  }

  predicate FitsEnding(e: Ending, ds: seq<Declaration>) {
    match e
    case Lacking(flags, c) =>
      AreFlags(flags, ds) && Declares(ds, c) == RequiredArgument && IsGroupText(flags + [c])
    case _ => true
  }

  function FlagEvent(c: char, ds: seq<Declaration>): Event {
    if Declares(ds, c) == Unknown then Event('?', None, Some(c)) else Event(c, None, None)
  }

  function FlagEvents(flags: string, ds: seq<Declaration>): seq<Event> {
    if flags == "" then [] else [FlagEvent(flags[0], ds)] + FlagEvents(flags[1..], ds)
  }

  function TailEvents(tail: Tail): seq<Event> {
    match tail
    case Nothing => []
    case Attached(c, arg) => [Event(c, Some(arg), None)]
    case Separate(c, arg) => [Event(c, Some(arg), None)]
    case Bare(c) => [Event(c, None, None)]
  }

  function EventsOf(w: Word, ds: seq<Declaration>): seq<Event> {
    if w.Operand? then [] else FlagEvents(w.flags, ds) + TailEvents(w.tail)
  }

  /** What stands in a word, put before what was found behind it. */
  function Before(w: Word, ds: seq<Declaration>, s: Scanned): Scanned {
    Scanned(EventsOf(w, ds) + s.events,
            (if w.Operand? then [] else Elements(w)) + s.opts,
            (if w.Operand? then [w.a] else []) + s.nons)
  }

  function AtEnding(e: Ending, quiet: bool, ds: seq<Declaration>): Scanned {
    match e
    case Plain => Scanned([], [], [])
    case Dashes(rest) => Scanned([], ["--"], rest)
    case Lacking(flags, c) =>
      Scanned(FlagEvents(flags, ds) + [Event(if quiet then ':' else '?', None, Some(c))], EndingElements(e), [])
  }

  /** What the words of a command line say. */
  function Said(words: seq<Word>, e: Ending, quiet: bool, ds: seq<Declaration>): Scanned {
    if words == [] then AtEnding(e, quiet, ds) else Before(words[0], ds, Said(words[1..], e, quiet, ds))
  }

  ghost predicate Declaring(optstring: string, ds: seq<Declaration>) {
    forall c :: KindOf(optstring, c) == Declares(ds, c)
  }

  /** The characters of a group up to its tail. */
  lemma {:induction false} ScanFlags(flags: string, text: string, args: seq<string>, optstring: string, ds: seq<Declaration>)
    requires args != [] && Declaring(optstring, ds) && AreFlags(flags, ds)
    ensures text != "" ==> Scan(flags + text, args, optstring) == AddEvents(flags, ds, Scan(text, args, optstring))
    ensures text == "" && flags != "" ==>
              var s := Scan("", args[1..], optstring);
              Scan(flags + text, args, optstring) == AddEvents(flags, ds, s.(opts := [args[0]] + s.opts))
  {
    if flags == "" {
      assert flags + text == text;
    } else {
      var c, more := flags[0], flags[1..];
      assert (flags + text)[0] == c && (flags + text)[1..] == more + text;
      assert FlagEvents(flags, ds) == [FlagEvent(c, ds)] + FlagEvents(more, ds);
      assert AreFlags(more, ds);
      assert more == "" ==> FlagEvents(more, ds) == [];
      hide Scan, KindOf, Declares, Declaring, FlagEvent, FlagEvents, AreFlags;
      ScanFlag(flags + text, args, optstring, ds);
      ScanFlags(more, text, args, optstring, ds);
    }
  }

  lemma ScanFlag(cluster: string, args: seq<string>, optstring: string, ds: seq<Declaration>)
    requires cluster != "" && args != []
    requires Declaring(optstring, ds) && Declares(ds, cluster[0]) in {NoArgument, Unknown}
    ensures Scan(cluster, args, optstring) ==
            var s := if cluster[1..] == "" then Scan("", args[1..], optstring) else Scan(cluster[1..], args, optstring);
            Scanned([FlagEvent(cluster[0], ds)] + s.events, (if cluster[1..] == "" then [args[0]] else []) + s.opts, s.nons)
  {
    assert KindOf(optstring, cluster[0]) == Declares(ds, cluster[0]);
  }

  function AddEvents(flags: string, ds: seq<Declaration>, s: Scanned): Scanned {
    s.(events := FlagEvents(flags, ds) + s.events)
  }

  /** The tail of a group, when it has one. */
  lemma ScanTail(w: Word, rest: seq<string>, optstring: string, ds: seq<Declaration>)
    requires Declaring(optstring, ds) && w.Group? && FitsTail(w.tail, ds) && !w.tail.Nothing?
    ensures var s := Scan("", rest, optstring);
            Scan(TailText(w.tail), Elements(w) + rest, optstring) ==
            Scanned(TailEvents(w.tail) + s.events, Elements(w) + s.opts, s.nons)
  {
    var tail, args := w.tail, Elements(w) + rest;
    var text := TailText(tail);
    assert KindOf(optstring, tail.c) == Declares(ds, tail.c);
    assert text[0] == tail.c && text[1..] == if tail.Attached? then tail.arg else "";
    hide KindOf, Declares;
    if tail.Separate? {
      assert args[1] == tail.arg && args[1..][1..] == rest && args[..2] == Elements(w);
    } else {
      assert args[1..] == rest && Elements(w) == [args[0]];
    }
  }

  /** An element of options is read behind its hyphen. */
  lemma EnterGroup(text: string, args: seq<string>, optstring: string)
    requires args != [] && IsGroupText(text) && args[0] == "-" + text
    ensures Scan("", args, optstring) == Scan(text, args, optstring)
  {
    assert args[0][1..] == text && args[0][1] == text[0];
    assert "--"[1..] == "-";
  }

  lemma ScanWord(w: Word, rest: seq<string>, optstring: string, ds: seq<Declaration>)
    requires Declaring(optstring, ds) && Fits(w, ds)
    ensures Scan("", Elements(w) + rest, optstring) == Before(w, ds, Scan("", rest, optstring))
  {
    var args := Elements(w) + rest;
    if w.Operand? {
      assert args[1..] == rest;
    } else {
      var text := TailText(w.tail);
      EnterGroup(w.flags + text, args, optstring);
      hide Scan;
      ScanFlags(w.flags, text, args, optstring, ds);
      if w.tail.Nothing? {
        assert args[1..] == rest;
      } else {
        ScanTail(w, rest, optstring, ds);
      }
      assert FlagEvents(w.flags, ds) + (TailEvents(w.tail) + Scan("", rest, optstring).events)
          == EventsOf(w, ds) + Scan("", rest, optstring).events;
    }
  }

  lemma ScanEnding(e: Ending, quiet: bool, ds: seq<Declaration>)
    requires AreDeclared(ds) && Declaring(OptionString(quiet, ds), ds) && FitsEnding(e, ds)
    ensures Scan("", EndingElements(e), OptionString(quiet, ds)) == AtEnding(e, quiet, ds)
  {
    var optstring, args := OptionString(quiet, ds), EndingElements(e);
    if e.Dashes? {
      assert args[1..] == e.rest;
    } else if e.Lacking? {
      EnterGroup(e.flags + [e.c], args, optstring);
      ScanFlags(e.flags, [e.c], args, optstring, ds);
      assert KindOf(optstring, e.c) == Declares(ds, e.c);
      QuietString(quiet, ds);
    }
  }

  lemma QuietString(quiet: bool, ds: seq<Declaration>)
    requires AreDeclared(ds)
    ensures MissingCode(OptionString(quiet, ds)) == if quiet then ':' else '?'
  {
    if ds != [] {
      assert DeclarationText(ds[0])[0] == ds[0].letter;
    }
  }

  lemma {:induction false} ScanWords(words: seq<Word>, e: Ending, quiet: bool, ds: seq<Declaration>)
    requires AreDeclared(ds) && Declaring(OptionString(quiet, ds), ds)
    requires (forall k | 0 <= k < |words| :: Fits(words[k], ds)) && FitsEnding(e, ds)
    ensures Scan("", CommandLine(words, e), OptionString(quiet, ds)) == Said(words, e, quiet, ds)
  {
    if words == [] {
      ScanEnding(e, quiet, ds);
    } else {
      ScanWord(words[0], CommandLine(words[1..], e), OptionString(quiet, ds), ds);
      ScanWords(words[1..], e, quiet, ds);
    }
  }

  /** A command line is understood as it was meant: whatever the declarations and the words, the scan
      reports their options with their arguments, and sorts out the operands. */
  lemma WordsAreUnderstood(words: seq<Word>, e: Ending, quiet: bool, ds: seq<Declaration>)
    requires AreDeclared(ds)
    requires (forall k | 0 <= k < |words| :: Fits(words[k], ds)) && FitsEnding(e, ds)
    ensures Scan("", CommandLine(words, e), OptionString(quiet, ds)) == Said(words, e, quiet, ds)
  {
    forall c
      ensures KindOf(OptionString(quiet, ds), c) == Declares(ds, c)
    {
      StringDeclares(quiet, ds, c);
    }
    ScanWords(words, e, quiet, ds);
  }
}
