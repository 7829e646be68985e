/** Helpers of the plugin: the scanner over the host's double-NUL-terminated
    name lists, and the packed date/time word the host expects in a header. */
module Util {
  import opened Wcx

  /** The host's list memory is terminated by two zero units. */
  ghost predicate ListMemory(mem: seq<nat>) {
    |mem| >= 2 && mem[|mem| - 2] == 0 && mem[|mem| - 1] == 0
  }

  /** Number of non-zero units starting at `p`, i.e. the distance to the next
      zero. */
  function RunLength(mem: seq<nat>, p: nat): (n: nat)
    requires p < |mem| && mem[|mem| - 1] == 0
    ensures p + n < |mem| && mem[p + n] == 0
    ensures forall k | p <= k < p + n :: mem[k] != 0
    decreases |mem| - p
  {
    if mem[p] == 0 then 0 else 1 + RunLength(mem, p + 1)
  }

  /** The run length is the distance to the first zero. */
  lemma {:induction false} RunLengthIsFirstZero(mem: seq<nat>, p: nat, len: nat)
    requires p + len < |mem| && mem[|mem| - 1] == 0 && mem[p + len] == 0
    requires forall k | p <= k < p + len :: mem[k] != 0
    ensures RunLength(mem, p) == len
    decreases len
  {
    if len > 0 {
      RunLengthIsFirstZero(mem, p + 1, len - 1);
    }
  }

  /** The strings of a list that starts at `p`: maximal non-empty runs of
      non-zero units, each followed by one zero, up to the first empty run. */
  function Strings(mem: seq<nat>, p: nat): (items: seq<seq<nat>>)
    requires ListMemory(mem) && p < |mem|
    ensures forall i | 0 <= i < |items| :: items[i] != [] && 0 !in items[i]
    decreases |mem| - p
  {
    var n := RunLength(mem, p);
    if n == 0 then []
    else
      assert mem[p + n - 1] != 0;
      [mem[p..p + n]] + Strings(mem, p + n + 1)
  }

  /** `CListIter`: a pointer into the host's list memory that is moved past
      each string it yields and set to null at the terminating empty string. */
  class CListIter {
    /** The memory the host's pointer points into; never written. */
    const mem: seq<nat>
    /** The pointer: `None` is null, `Some(p)` points at `mem[p]`. */
    var pos: Option<nat>

    ghost predicate Valid()
      reads this
    {
      ListMemory(mem) && (pos.Some? ==> pos.value < |mem|)
    }

    /** The strings that later calls of `Next` will yield, in order. */
    ghost function Remaining(): seq<seq<nat>>
      reads this
      requires Valid()
    {
      if pos.None? then [] else Strings(mem, pos.value)
    }

    constructor (mem: seq<nat>, start: Option<nat>)
      requires ListMemory(mem) && (start.Some? ==> start.value < |mem|)
      ensures Valid() && this.mem == mem && pos == start
    {
      this.mem := mem;
      pos := start;
    }

    /** Yields the string under the pointer and steps past its zero; at an
        empty string (the second zero) yields nothing and nulls the pointer,
        so the iterator stays finished. */
    method Next() returns (item: Option<seq<nat>>)
      requires Valid()
      modifies this
      ensures Valid()
      ensures old(Remaining()) == [] ==> item == None && pos == None && Remaining() == []
      ensures old(Remaining()) != [] ==> item == Some(old(Remaining())[0]) && Remaining() == old(Remaining())[1..]
      ensures item.Some? ==> old(pos).Some? && pos == Some(old(pos).value + |item.value| + 1)
    {
      if pos.None? {
        return None;
      }
      var p := pos.value;
      var len := 0;
      while mem[p + len] != 0
        invariant p + len < |mem|
        invariant forall k | p <= k < p + len :: mem[k] != 0
        decreases |mem| - (p + len)
      {
        len := len + 1;
      }
      RunLengthIsFirstZero(mem, p, len);
      if len != 0 {
        item := Some(mem[p..p + len]);
        assert mem[p + len - 1] != 0;
        pos := Some(p + len + 1);
      } else {
        pos := None;
        item := None;
      }
    }
  }

  /** The example from the scanner's documentation: `OwO\0hewwo\0\0` holds
      exactly the two strings "OwO" and "hewwo". */
  lemma DocumentedExample()
    ensures Strings([79, 119, 79, 0, 104, 101, 119, 119, 111, 0, 0], 0)
         == [[79, 119, 79], [104, 101, 119, 119, 111]]
  {
    var mem: seq<nat> := [79, 119, 79, 0, 104, 101, 119, 119, 111, 0, 0];
    assert RunLength(mem, 10) == 0;
    assert RunLength(mem, 9) == 0;
    assert RunLength(mem, 4) == 5 by {
      assert RunLength(mem, 8) == 1;
      assert RunLength(mem, 7) == 2;
      assert RunLength(mem, 6) == 3;
      assert RunLength(mem, 5) == 4;
    }
    assert RunLength(mem, 0) == 3 by {
      assert RunLength(mem, 3) == 0;
      assert RunLength(mem, 2) == 1;
      assert RunLength(mem, 1) == 2;
    }
    assert Strings(mem, 10) == [];
    assert Strings(mem, 4) == [mem[4..9]] + Strings(mem, 10);
    assert Strings(mem, 0) == [mem[0..3]] + Strings(mem, 4);
    assert mem[0..3] == [79, 119, 79];
    assert mem[4..9] == [104, 101, 119, 119, 111];
  }

  /** A list whose first unit is zero (a leading empty string) holds nothing. */
  lemma LeadingEmptyStringEndsList(mem: seq<nat>, p: nat)
    requires ListMemory(mem) && p < |mem| && mem[p] == 0
    ensures Strings(mem, p) == []
  {
  }

  /** The broken-down local time `localtime` fills in (`struct tm`). */
  datatype Tm = Tm(tmYear: int, tmMon: int, tmMday: int, tmHour: int, tmMin: int, tmSec: int)

  /** The ranges `localtime` produces; the year is such that `1900 + tm_year`
      is itself a C int. */
  ghost predicate FromLocaltime(t: Tm) {
    && -0x8000_0000 <= t.tmYear && 1900 + t.tmYear <= INT_MAX
    && 0 <= t.tmMon <= 11
    && 1 <= t.tmMday <= 31
    && 0 <= t.tmHour <= 23
    && 0 <= t.tmMin <= 59
    && 0 <= t.tmSec <= 60
  }

  /** The year written into the packed word: clamped to [1980, 2100]. */
  function ClampedYear(t: Tm): (y: int)
    ensures 1980 <= y <= 2100
    ensures 1980 <= 1900 + t.tmYear <= 2100 ==> y == 1900 + t.tmYear
    ensures 1900 + t.tmYear < 1980 ==> y == 1980
    ensures 1900 + t.tmYear > 2100 ==> y == 2100
  {
    if 1900 + t.tmYear < 1980 then 1980
    else if 1900 + t.tmYear > 2100 then 2100
    else 1900 + t.tmYear
  }

  /** The unsigned 32-bit word `(year-1980)<<25 | month<<21 | mday<<16 |
      hour<<11 | min<<5 | sec/2`. Within the ranges above each field fits its
      bit range (7, 4, 5, 5, 6 and 5 bits), so the OR of the shifted fields
      is their sum and nothing is shifted past bit 31. */
  function PackedTimeWord(t: Tm): (w: nat)
    requires FromLocaltime(t)
    ensures w < 0x1_0000_0000
  {
    var year := ClampedYear(t);
    var month := t.tmMon + 1;
    (year - 1980) * 0x200_0000 + month * 0x20_0000 + t.tmMday * 0x1_0000
      + t.tmHour * 0x800 + t.tmMin * 0x20 + t.tmSec / 2
  }

  /** A C int read from its 32 bits (two's complement). */
  function AsCInt(w: nat): (r: int)
    requires w < 0x1_0000_0000
    ensures -0x8000_0000 <= r <= INT_MAX
    ensures r < 0 <==> w >= 0x8000_0000
    ensures r % 0x1_0000_0000 == w
  {
    if w < 0x8000_0000 then w else w - 0x1_0000_0000
  }

  /** `system_time_to_totalcmd_time` once `localtime` has produced `t`. */
  function SystemTimeToTotalcmdTime(t: Tm): (r: int)
    requires FromLocaltime(t)
    ensures -0x8000_0000 <= r <= INT_MAX
  {
    AsCInt(PackedTimeWord(t))
  }

  /** The fields a host reads back out of a packed word. */
  datatype PackedFields = PackedFields(year: int, month: int, day: int, hour: int, minute: int, second: int)

  /** How the host takes the word apart: bits 25-31, 21-24, 16-20, 11-15, 5-10
      and 0-4. */
  function Unpack(r: int): (f: PackedFields) {
    var w := r % 0x1_0000_0000;
    PackedFields(
      1980 + w / 0x200_0000, w / 0x20_0000 % 0x10, w / 0x1_0000 % 0x20,
      w / 0x800 % 0x20, w / 0x20 % 0x40, 2 * (w % 0x20))
  }

  /** The packed fields do not overlap: a host unpacking the C int gets back
      the clamped year, the 1-based month, the day, hour and minute, and the
      seconds rounded down to an even number. */
  lemma PackedTimeRoundTrip(t: Tm)
    requires FromLocaltime(t)
    ensures Unpack(SystemTimeToTotalcmdTime(t))
         == PackedFields(ClampedYear(t), t.tmMon + 1, t.tmMday, t.tmHour, t.tmMin, t.tmSec / 2 * 2)
  {
    var y, mo, d := ClampedYear(t) - 1980, t.tmMon + 1, t.tmMday;
    var h, mi, s := t.tmHour, t.tmMin, t.tmSec / 2;
    var w := y * 0x200_0000 + mo * 0x20_0000 + d * 0x1_0000 + h * 0x800 + mi * 0x20 + s;
    assert PackedTimeWord(t) == w;
    UnpackWord(y, mo, d, h, mi, s);
  }

  /** Six in-range fields summed into their bit positions come back out of
      the word unchanged. */
  lemma UnpackWord(y: int, mo: int, d: int, h: int, mi: int, s: int)
    requires 0 <= y < 0x80 && 0 <= mo < 0x10 && 0 <= d < 0x20 && 0 <= h < 0x20 && 0 <= mi < 0x40 && 0 <= s < 0x20
    ensures var w := y * 0x200_0000 + mo * 0x20_0000 + d * 0x1_0000 + h * 0x800 + mi * 0x20 + s;
      && 0 <= w < 0x1_0000_0000
      && Unpack(AsCInt(w)) == PackedFields(1980 + y, mo, d, h, mi, 2 * s)
  {
    var w := y * 0x200_0000 + mo * 0x20_0000 + d * 0x1_0000 + h * 0x800 + mi * 0x20 + s;
    assert AsCInt(w) % 0x1_0000_0000 == w;
    var low5 := mi * 0x20 + s;
    var low11 := h * 0x800 + low5;
    var low16 := d * 0x1_0000 + low11;
    var low21 := mo * 0x20_0000 + low16;
    assert w == y * 0x200_0000 + low21;
    DigitSplit(y, low21, 0x200_0000);
    DigitSplit(mo, low16, 0x20_0000);
    DigitSplit(d, low11, 0x1_0000);
    DigitSplit(h, low5, 0x800);
    DigitSplit(mi, s, 0x20);
    assert w / 0x20_0000 == y * 0x10 + mo by {
      DigitSplit(y * 0x10 + mo, low16, 0x20_0000);
    }
    DigitSplit(y, mo, 0x10);
    assert w / 0x1_0000 == (y * 0x10 + mo) * 0x20 + d by {
      DigitSplit((y * 0x10 + mo) * 0x20 + d, low11, 0x1_0000);
    }
    DigitSplit(y * 0x10 + mo, d, 0x20);
    assert w / 0x800 == ((y * 0x10 + mo) * 0x20 + d) * 0x20 + h by {
      DigitSplit(((y * 0x10 + mo) * 0x20 + d) * 0x20 + h, low5, 0x800);
    }
    DigitSplit((y * 0x10 + mo) * 0x20 + d, h, 0x20);
    assert w / 0x20 == (((y * 0x10 + mo) * 0x20 + d) * 0x20 + h) * 0x40 + mi by {
      DigitSplit((((y * 0x10 + mo) * 0x20 + d) * 0x20 + h) * 0x40 + mi, s, 0x20);
    }
    DigitSplit(((y * 0x10 + mo) * 0x20 + d) * 0x20 + h, mi, 0x40);
  }

  /** A number written as a high part and a low digit below `k` splits back
      into them. */
  lemma DigitSplit(hi: int, lo: int, k: int)
    requires 0 <= hi && 0 <= lo < k
    ensures (hi * k + lo) / k == hi && (hi * k + lo) % k == lo
  {
    var n := hi * k + lo;
    var q, r := n / k, n % k;
    assert n == q * k + r && 0 <= r < k;
    if q < hi {
      MulMonotone(q + 1, hi, k);
    } else if q > hi {
      MulMonotone(hi + 1, q, k);
    }
  }

  /** Multiplying by a positive factor keeps the order; the solver needs this
      step of non-linear arithmetic spelled out. */
  lemma MulMonotone(a: int, b: int, k: int)
    requires a <= b && 0 < k
    ensures a * k <= b * k
  {
  }

  /** Read as a C int, the packed word is negative exactly from 2044 on: the
      year field then reaches bit 31. */
  lemma PackedTimeNegativeFrom2044(t: Tm)
    requires FromLocaltime(t)
    ensures SystemTimeToTotalcmdTime(t) < 0 <==> ClampedYear(t) >= 2044
  {
  }
}
