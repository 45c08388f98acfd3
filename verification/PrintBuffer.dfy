/**
 The print buffer of func_libs/fx_bprint.h: text is appended, the buffer grows up to a limit, and
 what does not fit is only counted. Sizes are unsigned 32-bit numbers.
 */
module PrintBuffer {
  const UINT_MAX: int := 0xffff_ffff

  const EIO := -5
  const ENOMEM := -12
  const INVALID_DATA := -1094995529

  function Min(x: int, y: int): (m: int)
    ensures m <= x && m <= y && (m == x || m == y)
  {
    if x < y then x else y
  }

  /** The number that is counted for a text: lengths stop at UINT_MAX - 5. */
  function Counted(n: nat): nat {
    Min(n, UINT_MAX - 5)
  }

  class AVBPrint {
    var str: array<char>
    var len: int
    var size: int
    var sizeMax: int

    /** fx_bprint_init, up to the first allocation: `automatic` is the size of the internal buffer. */
    constructor (automatic: int, sizeMax: int)
      requires 1 <= automatic <= UINT_MAX && 0 <= sizeMax <= UINT_MAX
      ensures Valid() && fresh(str) && Holds("")
      ensures this.sizeMax == (if sizeMax == 1 then automatic else sizeMax) && size == Min(automatic, this.sizeMax)
    {
      var limit := if sizeMax == 1 then automatic else sizeMax;
      str := new char[automatic](_ => '\0');
      len := 0;
      size := Min(automatic, limit);
      this.sizeMax := limit;
    }

    ghost predicate Valid()
      reads this
    {
      && 0 <= len <= UINT_MAX - 5 && 0 <= size <= sizeMax <= UINT_MAX && size <= str.Length && str.Length > 0
      && (size == 0 ==> sizeMax == 0)
    }

    /** How much of the text is kept, without the terminator. */
    function Kept(): int
      reads this
    {
      Min(len, size - 1)
    }

    /** The text `t` has been appended in all: its length is counted, and its beginning is there, with
        a terminator behind it. */
    ghost predicate Holds(t: string)
      requires Valid()
      reads this, str
    {
      && len == Counted(|t|)
      && (size > 0 ==> str[..Kept()] == t[..Kept()] && str[Kept()] == '\0')
    }

    /** fx_bprint_is_complete */
    predicate IsComplete()
      reads this
    {
      len < size
    }

    /** fx_bprint_room */
    function Room(): (r: int)
      reads this
      ensures len <= size ==> r == size - len
    {
      size - Min(len, size)
    }

    /** The test for truncation tells the truth for texts up to UINT_MAX - 5 characters, and for
        longer ones as long as the buffer is not larger than that. */
    lemma CompleteMeansAll(t: string)
      requires Valid() && Holds(t)
      ensures (IsComplete() <==> size > 0 && str[..Kept()] == t) <==> |t| <= UINT_MAX - 5 || size <= UINT_MAX - 5
    {
      if size > 0 {
        assert |str[..Kept()]| == Kept();
        if |t| == Kept() {
          assert t[..Kept()] == t;
        }
      }
    }

    /** fx_bprint_alloc; `enough` tells whether there is memory. */
    method Alloc(room: int, enough: bool, ghost t: string) returns (r: int)
      requires Valid() && Holds(t) && 0 <= room <= UINT_MAX
      modifies this`str, this`size
      ensures Valid() && Holds(t) && (str == old(str) || fresh(str))
      ensures r == if old(size) == sizeMax then EIO else if old(size) <= len then INVALID_DATA else if !enough then ENOMEM else 0
      ensures r == 0 ==> old(size) < size && (len + room < size || size == sizeMax)
      ensures r != 0 ==> str == old(str) && size == old(size)
    {
      if size == sizeMax {
        return EIO;
      }
      if !IsComplete() {
        return INVALID_DATA;
      }
      var minSize := len + 1 + Min(UINT_MAX - len - 1, room);
      var newSize := if size > sizeMax / 2 then sizeMax else size * 2;
      if newSize < minSize {
        newSize := Min(sizeMax, minSize);
      }
      if !enough {
        return ENOMEM;
      }
      str := Copied(str, len + 1, newSize);
      size := newSize;
      return 0;
    }

    /** fx_bprint_grow, once the new text has been written as far as there was room for it */
    method Grow(extra: int, ghost t: string, ghost data: string)
      requires Valid() && 0 <= extra == |data| <= UINT_MAX && len == Counted(|t|)
      requires size > 0 ==> var k := Min(Counted(|t + data|), size - 1); str[..k] == (t + data)[..k]
      modifies this`len, str
      ensures Valid() && Holds(t + data)
    {
      var extraLen := Min(extra, UINT_MAX - 5 - len);
      len := len + extraLen;
      if size != 0 {
        ghost var k := Min(len, size - 1);
        ghost var kept := str[..k];
        str[Min(len, size - 1)] := '\0';
        assert str[..k] == kept;
      }
    }

    /** The loop in front of every append: room for n characters and the terminator, if there can be. */
    method MakeRoom(n: int, enough: bool, ghost t: string) returns (room: int)
      requires Valid() && Holds(t) && 0 <= n <= UINT_MAX
      modifies this`str, this`size
      ensures Valid() && Holds(t) && (str == old(str) || fresh(str)) && room == Room()
      ensures enough && old(IsComplete()) && len + n < sizeMax ==> n < room
      ensures old(IsComplete()) ==> IsComplete()
    {
      while true
        invariant Valid() && Holds(t) && (str == old(str) || fresh(str)) && (old(IsComplete()) ==> IsComplete())
        decreases sizeMax - size
      {
        room := Room();
        if n < room {
          break;
        }
        var r := Alloc(n, enough, t);
        if r != 0 {
          break;
        }
      }
    }

    /** fx_bprint_append_data; fx_bprint_chars is the same with a repeated character. */
    method AppendData(data: string, enough: bool, ghost t: string)
      requires Valid() && Holds(t) && |data| <= UINT_MAX
      modifies this`str, this`size, this`len, str
      ensures Valid() && Holds(t + data) && (str == old(str) || fresh(str))
      ensures enough && old(IsComplete()) && |t| <= UINT_MAX - 5 && |t| + |data| < sizeMax ==> |t| + |data| < size
    {
      var room := MakeRoom(|data|, enough, t);
      if room != 0 {
        var realN := Min(|data|, room - 1);
        Write(data, realN, t);
      }
      Grow(|data|, t, data);
    }

    /** memcpy to the end of the text */
    method Write(data: string, n: int, ghost t: string)
      requires Valid() && Holds(t) && len < size && 0 <= n <= |data| && n <= size - len - 1 && (n < |data| ==> n == size - len - 1)
      modifies str
      ensures var k := Min(Counted(|t + data|), size - 1); str[..k] == (t + data)[..k]
    {
      ghost var s := str[..];
      var i := 0;
      while i < n
        invariant 0 <= i <= n
        invariant forall k {:trigger str[k]} | 0 <= k < len + i :: str[k] == if k < len then s[k] else data[k - len]
      {
        str[len + i] := data[i];
        i := i + 1;
      }
      ghost var all := t + data;
      ghost var k := Min(Counted(|all|), size - 1);
      forall x | 0 <= x < k
        ensures str[x] == all[x]
      {
        if x < len {
          assert s[x] == s[..len][x] == t[..len][x];
        }
      }
      assert str[..k] == all[..k];
    }

    /** fx_bprint_clear */
    method Clear(ghost t: string)
      requires Valid() && Holds(t)
      modifies this`len, str
      ensures Valid() && Holds("")
    {
      if len != 0 {
        str[0] := '\0';
        len := 0;
      }
    }
  }

  /** The reallocation: the first n characters are kept. */
  method Copied(from: array<char>, n: int, size: int) returns (str: array<char>)
    requires 0 <= n <= size && n <= from.Length
    ensures fresh(str) && str.Length == size && str[..n] == from[..n]
  {
    str := new char[size](_ => '\0');
    var i := 0;
    while i < n
      invariant 0 <= i <= n && str[..i] == from[..i]
    {
      str[i] := from[i];
      i := i + 1;
    }
  }

  // ----- runs of appends -----

  function Joined(parts: seq<string>, n: nat): string
    requires n <= |parts|
  {
    if n == 0 then "" else Joined(parts, n - 1) + parts[n - 1]
  }

  lemma {:induction false} JoinedLength(parts: seq<string>, n: nat, m: nat)
    requires n <= m <= |parts|
    ensures |Joined(parts, n)| <= |Joined(parts, m)|
  {
    if n < m {
      JoinedLength(parts, n, m - 1);
    }
  }

  /** Any run of appends keeps what fits of the whole text; with memory and a limit above its length,
      that is all of it. */
  method AppendAll(buf: AVBPrint, parts: seq<string>, enough: seq<bool>)
    requires buf.Valid() && buf.Holds("") && |enough| == |parts| && forall i | 0 <= i < |parts| :: |parts[i]| <= UINT_MAX
    modifies buf`str, buf`size, buf`len, buf.str
    ensures buf.Valid() && buf.Holds(Joined(parts, |parts|))
    ensures (forall i | 0 <= i < |enough| :: enough[i]) && old(buf.IsComplete())
              && |Joined(parts, |parts|)| <= UINT_MAX - 5 && |Joined(parts, |parts|)| < buf.sizeMax ==>
              buf.IsComplete() && buf.str[..buf.len] == Joined(parts, |parts|)
  {
    ghost var all := Joined(parts, |parts|);
    ghost var fits := (forall i | 0 <= i < |enough| :: enough[i]) && buf.IsComplete() && |all| <= UINT_MAX - 5 && |all| < buf.sizeMax;
    var i := 0;
    while i < |parts|
      invariant 0 <= i <= |parts| && buf.Valid() && buf.Holds(Joined(parts, i)) && (buf.str == old(buf.str) || fresh(buf.str))
      invariant fits ==> buf.IsComplete()
    {
      JoinedLength(parts, i + 1, |parts|);
      buf.AppendData(parts[i], enough[i], Joined(parts, i));
      i := i + 1;
    }
    if fits {
      buf.CompleteMeansAll(all);
    }
  }

  /** The two passes that the source describes: with a limit of 0 the text is only counted, and a
      buffer with room for just that many characters then takes all of it. */
  method CountThenPrint(automatic: int, parts: seq<string>) returns (buf: AVBPrint)
    requires 1 <= automatic <= UINT_MAX && |Joined(parts, |parts|)| <= UINT_MAX - 5
    requires forall i | 0 <= i < |parts| :: |parts[i]| <= UINT_MAX
    ensures buf.Valid() && buf.IsComplete() && buf.str[..buf.len] == Joined(parts, |parts|)
  {
    var counter := new AVBPrint(automatic, 0);
    var enough := seq(|parts|, _ => true);
    AppendAll(counter, parts, enough);
    var exact := counter.len + 1;
    buf := new AVBPrint(automatic, exact);
    if exact > buf.size {
      var r := buf.Alloc(exact - 1, true, "");
    }
    AppendAll(buf, parts, enough);
  }

  /** A buffer without a limit that says it is complete although the last character is missing. */
  method LostCharacter(automatic: int) returns (buf: AVBPrint, t: string)
    requires 1 <= automatic <= UINT_MAX
    ensures buf.Valid() && buf.Holds(t) && buf.IsComplete() && |buf.str[..buf.Kept()]| < |t|
  {
    buf := new AVBPrint(automatic, UINT_MAX);
    t := seq(UINT_MAX - 4, _ => 'a');
    buf.AppendData(t, true, "");
    assert "" + t == t;
  }
}
