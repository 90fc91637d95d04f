/** The packet-rate tracker: a ring of timestamps against the full history. */
module Tps {
  import opened Bytes

  const RING := 32768
  const WRAP := 0x1_0000_0000_0000_0000

  /** What is stored for a timestamp: zero marks an empty slot and is stored as one. */
  function Stored(micros: nat): nat {
    if micros == 0 then 1 else micros
  }

  function Zeros(n: nat): seq<nat> {
    seq(n, _ => 0)
  }

  /** The ring after the values `h` have been stored one after the other. */
  function Ring(h: seq<nat>): (r: seq<nat>)
    ensures |r| == RING
  {
    if |h| < RING then h + Zeros(RING - |h|) else Rotated(h, Slot(|h|))
  }

  /** The slot of the `n`-th value. */
  function Slot(n: nat): (at: nat)
    ensures at < RING
    ensures n < RING ==> at == n
  {
    n % RING
  }

  /** The last `RING` values, the latest `at` of them in front. */
  function Rotated(h: seq<nat>, at: nat): (r: seq<nat>)
    requires at < RING <= |h|
    ensures |r| == RING
  {
    h[|h| - at..] + h[|h| - RING..|h| - at]
  }

  /** The values in a window: stored at or after the cutoff. */
  function CountIn(s: seq<nat>, cutoff: nat): (c: nat)
    ensures c <= |s|
  {
    if s == [] then 0
    else CountIn(s[..|s| - 1], cutoff) + (if s[|s| - 1] != 0 && s[|s| - 1] >= cutoff then 1 else 0)
  }

  // ---------------------------------------------------------------------
  // The ring holds the latest values
  // ---------------------------------------------------------------------

  lemma NextSlot(n: nat)
    ensures Slot(n + 1) == if Slot(n) + 1 == RING then 0 else Slot(n) + 1
  {
    var q, r := n / RING, n % RING;
    assert n == q * RING + r;
    if r + 1 == RING {
      UniqueRemainder(n + 1, RING, q + 1, 0);
    } else {
      UniqueRemainder(n + 1, RING, q, r + 1);
    }
  }

  /** Writing the next value at the cursor gives the ring of the longer history. */
  lemma StoreIsNextRing(h: seq<nat>, v: nat)
    ensures Ring(h)[Slot(|h|) := v] == Ring(h + [v])
  {
    hide Slot, Rotated, Zeros;
    var n := |h|;
    NextSlot(n);
    if n < RING {
      FillStep(h, v);
      if n + 1 == RING {
        FullUnrotated(h + [v]);
      }
    } else {
      RotatedStep(h, Slot(n), v);
    }
  }

  lemma FillStep(h: seq<nat>, v: nat)
    requires |h| < RING
    ensures (h + Zeros(RING - |h|))[|h| := v] == h + [v] + Zeros(RING - |h| - 1)
    ensures |h| + 1 == RING ==> (h + Zeros(RING - |h|))[|h| := v] == h + [v]
  {
    var rest := Zeros(RING - |h|);
    assert rest == [0] + Zeros(RING - |h| - 1);
  }

  lemma FullUnrotated(h: seq<nat>)
    requires |h| == RING
    ensures Rotated(h, 0) == h
  {
    assert h[RING..] == [] && h[0..RING] == h;
  }

  lemma RotatedStep(h: seq<nat>, at: nat, v: nat)
    requires at < RING <= |h|
    ensures Rotated(h, at)[at := v] == Rotated(h + [v], if at + 1 == RING then 0 else at + 1)
  {
    var n, h' := |h|, h + [v];
    var newer, older := h[n - at..], h[n - RING..n - at];
    assert (newer + older)[at := v] == newer + [v] + older[1..];
    if at + 1 == RING {
      assert older[1..] == [];
      assert h'[n + 1..] == [];
      assert h'[n + 1 - RING..n + 1] == newer + [v];
    } else {
      assert h'[n - at..] == newer + [v];
      assert h'[n + 1 - RING..n - at] == older[1..];
    }
  }

  lemma {:induction false} CountConcat(a: seq<nat>, b: seq<nat>, cutoff: nat)
    ensures CountIn(a + b, cutoff) == CountIn(a, cutoff) + CountIn(b, cutoff)
    decreases |b|
  {
    if b == [] {
      assert a + b == a;
    } else {
      CountConcat(a, b[..|b| - 1], cutoff);
      assert (a + b)[..|a + b| - 1] == a + b[..|b| - 1];
    }
  }

  lemma {:induction false} CountZeros(n: nat, cutoff: nat)
    ensures CountIn(Zeros(n), cutoff) == 0
  {
    if n > 0 {
      CountZeros(n - 1, cutoff);
      assert Zeros(n)[..n - 1] == Zeros(n - 1);
    }
  }

  lemma RotatedCounts(h: seq<nat>, at: nat, cutoff: nat)
    requires at < RING <= |h|
    ensures CountIn(Rotated(h, at), cutoff) == CountIn(h[|h| - RING..], cutoff)
  {
    hide CountIn;
    var newer, older := h[|h| - at..], h[|h| - RING..|h| - at];
    CountConcat(newer, older, cutoff);
    CountConcat(older, newer, cutoff);
    assert h[|h| - RING..] == older + newer;
  }

  /** However the ring is rotated, it counts the last `RING` values. */
  lemma RingCountsLatest(h: seq<nat>, cutoff: nat)
    ensures CountIn(Ring(h), cutoff) == CountIn(if |h| < RING then h else h[|h| - RING..], cutoff)
  {
    hide CountIn, Slot, Rotated;
    if |h| < RING {
      CountConcat(h, Zeros(RING - |h|), cutoff);
      CountZeros(RING - |h|, cutoff);
    } else {
      RotatedCounts(h, Slot(|h|), cutoff);
    }
  }

  // ---------------------------------------------------------------------
  // Counting against the whole history
  // ---------------------------------------------------------------------

  predicate Ordered(h: seq<nat>) {
    (forall i :: 0 <= i < |h| ==> h[i] > 0) && forall i, j :: 0 <= i < j < |h| ==> h[i] <= h[j]
  }

  lemma {:induction false} CountAll(s: seq<nat>, cutoff: nat)
    requires forall i :: 0 <= i < |s| ==> s[i] != 0 && s[i] >= cutoff
    ensures CountIn(s, cutoff) == |s|
  {
    if s != [] {
      CountAll(s[..|s| - 1], cutoff);
    }
  }

  lemma {:induction false} CountNone(s: seq<nat>, cutoff: nat)
    requires forall i :: 0 <= i < |s| ==> s[i] < cutoff
    ensures CountIn(s, cutoff) == 0
  {
    if s != [] {
      CountNone(s[..|s| - 1], cutoff);
    }
  }

  /** Of an ordered history the window is a suffix, so its last `m` values hold all of the window
      or nothing else. */
  lemma CountSuffix(h: seq<nat>, m: nat, cutoff: nat)
    requires Ordered(h) && m <= |h|
    ensures CountIn(h[|h| - m..], cutoff) == if CountIn(h, cutoff) < m then CountIn(h, cutoff) else m
  {
    var front, back := h[..|h| - m], h[|h| - m..];
    assert h == front + back;
    CountConcat(front, back, cutoff);
    if m > 0 && h[|h| - m] < cutoff {
      CountNone(front, cutoff);
      assert back[0] < cutoff;
      CountFirstMissing(back, cutoff);
    } else {
      CountAll(back, cutoff);
    }
  }

  lemma {:induction false} CountFirstMissing(s: seq<nat>, cutoff: nat)
    requires s != [] && s[0] < cutoff
    ensures CountIn(s, cutoff) < |s|
  {
    if |s| > 1 {
      CountFirstMissing(s[..|s| - 1], cutoff);
    } else {
      assert s[..0] == [];
    }
  }

  function StoredAll(ts: seq<nat>): (h: seq<nat>)
    ensures |h| == |ts|
  {
    seq(|ts|, i requires 0 <= i < |ts| => Stored(ts[i]))
  }

  /** The ring counts what the full history would, up to its capacity. */
  lemma RingCountsHistory(ts: seq<nat>, cutoff: nat)
    requires forall i, j :: 0 <= i < j < |ts| ==> ts[i] <= ts[j]
    ensures var inWindow := CountIn(StoredAll(ts), cutoff);
      CountIn(Ring(StoredAll(ts)), cutoff) == if inWindow < 32768 then inWindow else 32768
  {
    hide Ring, CountIn;
    var h := StoredAll(ts);
    RingCountsLatest(h, cutoff);
    CountSuffix(h, if |h| < RING then |h| else RING, cutoff);
    assert |h| < RING ==> h[0..] == h;
  }

  // ---------------------------------------------------------------------
  // The tracker
  // ---------------------------------------------------------------------

  /** The ring size divides the range of the cursor, so a wrapped cursor still names the right slot. */
  lemma WrappedCursor(n: nat)
    ensures (n % WRAP) % RING == Slot(n)
  {
    var q, c := n / WRAP, n % WRAP;
    var d, e := c / RING, c % RING;
    assert n == q * WRAP + c && c == d * RING + e;
    assert WRAP == 0x2_0000_0000_0000 * RING;
    assert q * WRAP == q * 0x2_0000_0000_0000 * RING;
    UniqueRemainder(n, RING, q * 0x2_0000_0000_0000 + d, e);
  }

  /** What is counted: the packets at or after the cutoff, one at time zero taken as at one. */
  ghost function InWindow(ts: seq<nat>, cutoff: nat): set<int> {
    set i: int | 0 <= i < |ts| && (if ts[i] == 0 then 1 else ts[i]) >= cutoff
  }

  lemma {:induction false} CountMeans(ts: seq<nat>, cutoff: nat)
    ensures CountIn(StoredAll(ts), cutoff) == |InWindow(ts, cutoff)|
  {
    if ts != [] {
      var n := |ts| - 1;
      var before := ts[..n];
      CountMeans(before, cutoff);
      assert StoredAll(ts)[..n] == StoredAll(before);
      hide InWindow;
      WindowGrows(before, ts[n], cutoff);
      assert ts == before + [ts[n]];
    }
  }

  lemma WindowGrows(before: seq<nat>, t: nat, cutoff: nat)
    ensures |InWindow(before + [t], cutoff)| == |InWindow(before, cutoff)| + if (if t == 0 then 1 else t) >= cutoff then 1 else 0
  {
    var (ts, n) := (before + [t], |before|);
    var counts := (if t == 0 then 1 else t) >= cutoff;
    assert forall i :: 0 <= i < n ==> ts[i] == before[i];
    assert InWindow(ts, cutoff) == if counts then InWindow(before, cutoff) + {n} else InWindow(before, cutoff);
  }

  /** A window in microseconds; the product wraps at 64 bits. */
  function Micros(seconds: nat): (r: nat)
    ensures seconds * 1_000_000 < WRAP ==> r == seconds * 1_000_000
  {
    seconds * 1_000_000 % WRAP
  }

  datatype Rate = PerSecond(rate: real) | Infinite

  class TpsTracker {
    const slots: array<nat>
    var cursor: nat
    ghost var history: seq<nat>

    ghost predicate Valid()
      reads this, slots
    {
      && slots.Length == RING
      && cursor == |history| % WRAP
      && slots[..] == Ring(StoredAll(history))
    }

    constructor ()
      ensures Valid() && history == [] && fresh(slots)
    {
      slots := new nat[RING](_ => 0);
      cursor := 0;
      history := [];
      new;
      assert slots[..] == Zeros(RING);
    }

    /** `record_packet` at `micros` after the epoch. */
    method RecordPacket(micros: nat)
      requires Valid()
      modifies this, slots
      ensures Valid() && history == old(history) + [micros]
    {
      hide Ring;
      WrappedCursor(|history|);
      var idx := cursor % RING;
      cursor := (cursor + 1) % WRAP;
      slots[idx] := Stored(micros);
      ghost var h := StoredAll(history);
      StoreIsNextRing(h, Stored(micros));
      CursorStep(|history|);
      history := history + [micros];
      assert StoredAll(history) == h + [Stored(micros)];
      assert slots[..] == old(slots[..])[idx := Stored(micros)];
    }

    /** `calculate_tps` at time `now`: the scan counts the packets of the window (at most the ring's
        capacity of them). */
    method CalculateTps(windowSeconds: nat, now: nat) returns (rate: Rate, count: nat)
      requires Valid()
      requires forall i, j :: 0 <= i < j < |history| ==> history[i] <= history[j]
      ensures var window := Micros(windowSeconds);
        var inWindow := CountIn(StoredAll(history), if now < window then 0 else now - window);
        count == if inWindow < RING then inWindow else RING
      ensures rate == if count == 0 then PerSecond(20.0)
                      else if windowSeconds == 0 then Infinite
                      else PerSecond(count as real / windowSeconds as real)
    {
      hide Ring, Micros;
      var window := Micros(windowSeconds);
      var cutoff := if now < window then 0 else now - window;
      count := 0;
      for i := 0 to slots.Length
        invariant count == CountIn(slots[..i], cutoff)
      {
        assert slots[..i + 1][..i] == slots[..i];
        var val := slots[i];
        if val != 0 && val >= cutoff {
          count := count + 1;
        }
      }
      assert slots[..slots.Length] == slots[..];
      RingCountsHistory(history, cutoff);
      if count == 0 {
        rate := PerSecond(20.0);
      } else if windowSeconds == 0 {
        rate := Infinite;
      } else {
        rate := PerSecond(count as real / windowSeconds as real);
      }
    }
  }

  lemma CursorStep(n: nat)
    ensures (n % WRAP + 1) % WRAP == (n + 1) % WRAP
  {
    var q, r := n / WRAP, n % WRAP;
    assert n == q * WRAP + r;
    if r + 1 == WRAP {
      UniqueRemainder(n + 1, WRAP, q + 1, 0);
    } else {
      UniqueRemainder(n + 1, WRAP, q, r + 1);
    }
  }
}
