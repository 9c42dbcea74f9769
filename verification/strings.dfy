/**
 The two string helpers of the LLVMIR2OBJ driver: `startsWith`, a prefix test,
 and `split`, which cuts a string at a delimiter into at most `max` pieces.

 `split` is modelled twice. `Split` is the loop with its search started at the
 current position, which is what the function is evidently meant to do; the
 `AsWritten...` functions replay the loop as the source writes it, with every
 search started at index 0. The two agree for `max = 2`, the only value the
 command-line parser passes (lemma `AsWrittenAtTwo`), and disagree for larger
 or default `max` (lemmas `AsWrittenDuplicates` and `AsWrittenNeverReturns`).
 */
module Strings {

  datatype Option<+T> = None | Some(value: T)

  /** The largest `size_t`, which is also `std::string::npos` and the `-1` default of `max`. */
  const SizeMax: nat := 0xFFFF_FFFF_FFFF_FFFF

  /** True when `prefix` is the beginning of `s`: the sizes fit and `s.compare(0, |prefix|, prefix) == 0`. */
  function StartsWith(s: string, prefix: string): (b: bool)
    ensures b <==> |prefix| <= |s| && forall i :: 0 <= i < |prefix| ==> s[i] == prefix[i]
    ensures b ==> |prefix| <= |s| && s == prefix + s[|prefix|..]
  {
    |s| >= |prefix| && s[..|prefix|] == prefix
  }

  /** `s.find(c, from)`: the first index at or after `from` holding `c`, or None for `npos`. */
  function Find(s: string, c: char, from: nat): (r: Option<nat>)
    ensures r.Some? ==> from <= r.value < |s| && s[r.value] == c
    ensures r.Some? ==> forall i :: from <= i < r.value ==> s[i] != c
    ensures r.None? ==> forall i :: from <= i < |s| ==> s[i] != c
    decreases |s| - from
  {
    if from >= |s| then None
    else if s[from] == c then Some(from)
    else Find(s, c, from + 1)
  }

  /** The pieces glued back together with `delim` between neighbours. */
  function Join(parts: seq<string>, delim: char): string
    requires |parts| >= 1
  {
    if |parts| == 1 then parts[0]
    else Join(parts[..|parts| - 1], delim) + [delim] + parts[|parts| - 1]
  }

  /** `split(s, delim, 2)`: the text before the first `delim` and the text after it, or `[s]`. */
  function SplitFirst(s: string, delim: char): seq<string>
  {
    match Find(s, delim, 0)
    case None => [s]
    case Some(p) => [s[..p], s[p + 1..]]
  }

  /** The number of rounds the loop of `split` may run: `max - 1` in `size_t` arithmetic, so `max = 0` wraps around. */
  function Rounds(max: nat): nat
    requires max <= SizeMax
  {
    if max == 0 then SizeMax else max - 1
  }

  /**
   `split(s, delim, max)` with each search started at the current position.
   The pieces rebuild `s`, only the last may hold `delim`, there are at most
   `max` of them (no bound for the default `max`), and the last holds `delim`
   only when the bound was reached.
   */
  method Split(s: string, delim: char, max: nat) returns (parts: seq<string>)
    requires max <= SizeMax
    ensures |parts| >= 1 && Join(parts, delim) == s
    ensures forall i :: 0 <= i < |parts| - 1 ==> delim !in parts[i]
    ensures max != SizeMax ==> |parts| <= Rounds(max) + 1
    ensures max == SizeMax || |parts| <= Rounds(max) ==> delim !in parts[|parts| - 1]
    ensures max == 2 ==> parts == SplitFirst(s, delim)
  {
    var start: Option<nat> := Some(0);
    var res: seq<string> := [];
    while start.Some? && (max == SizeMax || |res| < Rounds(max))
      invariant start.Some? ==> Pending(s, delim, start.value, res)
      invariant start.None? ==> Finished(s, delim, res)
      invariant max != SizeMax ==> |res| <= Rounds(max)
      decreases if start.Some? then |s| + 1 - start.value else 0
    {
      var from := start.value;
      var pos := Find(s, delim, from);
      var sub := if pos.None? then s[from..] else s[from..pos.value];
      if pos.None? {
        PendingRoundLast(s, delim, from, res);
      } else {
        PendingRoundFound(s, delim, from, res, pos.value);
      }
      res := res + [sub];
      start := if pos.None? then None else Some(pos.value + 1);
    }
    if start.Some? {
      PendingFinish(s, delim, start.value, res);
      res := res + [s[start.value..]];
    }
    parts := res;
    if max == 2 {
      SplitFirstUnique(s, delim, parts);
    }
  }

  /** Midway through `split`: the pieces so far, free of `delim`, then `delim` and the text from `from` on, rebuild `s`. */
  ghost predicate Pending(s: string, delim: char, from: nat, res: seq<string>)
  {
    && from <= |s|
    && (res == [] ==> from == 0)
    && (res != [] ==> Join(res, delim) + [delim] + s[from..] == s)
    && forall i :: 0 <= i < |res| ==> delim !in res[i]
  }

  /** `split` has reached `npos`: the pieces, all free of `delim`, rebuild `s`. */
  ghost predicate Finished(s: string, delim: char, res: seq<string>)
  {
    && res != []
    && Join(res, delim) == s
    && forall i :: 0 <= i < |res| ==> delim !in res[i]
  }

  /** Appending a piece adds `delim` and the piece to the joined text. */
  lemma JoinAppend(res: seq<string>, piece: string, delim: char)
    ensures Join(res + [piece], delim) == if res == [] then piece else Join(res, delim) + [delim] + piece
  {
    if res != [] {
      assert (res + [piece])[..|res|] == res;
    }
  }

  /** A stretch of `s` in which no position holds `delim` is a piece free of `delim`. */
  lemma SliceFree(s: string, delim: char, from: nat, to: nat)
    requires from <= to <= |s|
    requires forall i :: from <= i < to ==> s[i] != delim
    ensures delim !in s[from..to]
  {
    assert forall i :: 0 <= i < to - from ==> s[from..to][i] == s[from + i];
  }

  /** Adding a piece free of `delim` to pieces free of `delim` keeps them all free of it. */
  lemma AllFreeAppend(res: seq<string>, piece: string, delim: char)
    requires forall i :: 0 <= i < |res| ==> delim !in res[i]
    requires delim !in piece
    ensures forall i :: 0 <= i < |res + [piece]| ==> delim !in (res + [piece])[i]
  {
    assert forall i :: 0 <= i < |res| ==> (res + [piece])[i] == res[i];
  }

  /** A round of `split`'s loop that finds `delim` at `p`: the piece before it is added and `start` moves past it. */
  lemma PendingRoundFound(s: string, delim: char, from: nat, res: seq<string>, p: nat)
    requires Pending(s, delim, from, res)
    requires Find(s, delim, from) == Some(p)
    ensures Pending(s, delim, p + 1, res + [s[from..p]])
  {
    SliceFree(s, delim, from, p);
    AllFreeAppend(res, s[from..p], delim);
    JoinAppend(res, s[from..p], delim);
    assert s[from..] == s[from..p] + [delim] + s[p + 1..];
    if res == [] {
      assert s[from..] == s;
    }
  }

  /** A round of `split`'s loop that finds no `delim`: the rest of the string is the last piece. */
  lemma PendingRoundLast(s: string, delim: char, from: nat, res: seq<string>)
    requires Pending(s, delim, from, res)
    requires Find(s, delim, from) == None
    ensures Finished(s, delim, res + [s[from..]])
  {
    SliceFree(s, delim, from, |s|);
    assert s[from..|s|] == s[from..];
    AllFreeAppend(res, s[from..], delim);
    JoinAppend(res, s[from..], delim);
    if res == [] {
      assert s[from..] == s;
    }
  }

  /** The push after `split`'s loop: the rest of the string becomes the last piece. */
  lemma PendingFinish(s: string, delim: char, from: nat, res: seq<string>)
    requires Pending(s, delim, from, res)
    ensures Join(res + [s[from..]], delim) == s
    ensures forall i :: 0 <= i < |res| ==> delim !in (res + [s[from..]])[i]
  {
    JoinAppend(res, s[from..], delim);
  }

  /**
   `SplitFirst` cuts at the first `delim`: with one present it gives two parts,
   the first free of `delim`, which rebuild `s` around it; with none it gives `[s]`.
   */
  lemma SplitFirstParts(s: string, delim: char)
    ensures delim in s ==> |SplitFirst(s, delim)| == 2
    ensures delim in s ==> delim !in SplitFirst(s, delim)[0]
    ensures delim in s ==> SplitFirst(s, delim)[0] + [delim] + SplitFirst(s, delim)[1] == s
    ensures delim !in s ==> SplitFirst(s, delim) == [s]
  {
    match Find(s, delim, 0)
    case None =>
    case Some(p) =>
      assert s == s[..p] + [delim] + s[p + 1..];
  }

  /** A one- or two-piece split that rebuilds `s` and has no `delim` in its first piece is `SplitFirst(s, delim)`. */
  lemma SplitFirstUnique(s: string, delim: char, parts: seq<string>)
    requires 1 <= |parts| <= 2 && Join(parts, delim) == s
    requires delim !in parts[0]
    requires |parts| == 2 || delim !in s
    ensures parts == SplitFirst(s, delim)
  {
    if |parts| == 2 {
      var a, b := parts[0], parts[1];
      assert parts[..1] == [a];
      assert s == a + [delim] + b;
      assert s[|a|] == delim;
      assert forall i :: 0 <= i < |a| ==> s[i] == a[i];
      assert Find(s, delim, 0) == Some(|a|);
      assert s[..|a|] == a && s[|a| + 1..] == b;
    } else {
      assert forall i :: 0 <= i < |s| ==> s[i] != delim;
    }
  }

  /** The state of `split`'s loop: `start` (None once it holds `npos`) and the pieces so far. */
  datatype SplitState = SplitState(start: Option<nat>, res: seq<string>)

  /**
   One round of `split`'s loop as the source writes it: the search starts at
   index 0 whatever `start` is, and when the `delim` found lies before `start`
   the length `pos - start` wraps around, so the piece runs to the end of `s`.
   */
  function AsWrittenRound(s: string, delim: char, st: SplitState): (next: SplitState)
    requires st.start.Some? && st.start.value <= |s|
    ensures next.start.Some? ==> next.start.value <= |s|
    ensures |next.res| == |st.res| + 1
  {
    var start := st.start.value;
    var pos := Find(s, delim, 0);
    var sub := if pos.None? || pos.value < start then s[start..] else s[start..pos.value];
    SplitState(if pos.None? then None else Some(pos.value + 1), st.res + [sub])
  }

  /** The condition of `split`'s loop. */
  predicate AsWrittenGuard(st: SplitState, max: nat)
    requires max <= SizeMax
  {
    st.start.Some? && (max == SizeMax || |st.res| < Rounds(max))
  }

  /** The as-written loop from `st` followed by the final push, for at most `fuel` rounds; None while it still loops. */
  function AsWrittenFrom(s: string, delim: char, max: nat, st: SplitState, fuel: nat): Option<seq<string>>
    requires max <= SizeMax
    requires st.start.Some? ==> st.start.value <= |s|
    decreases fuel
  {
    if AsWrittenGuard(st, max) then
      if fuel == 0 then None else AsWrittenFrom(s, delim, max, AsWrittenRound(s, delim, st), fuel - 1)
    else if st.start.Some? then Some(st.res + [s[st.start.value..]])
    else Some(st.res)
  }

  /** `split(s, delim, max)` exactly as written, given `fuel` rounds of its loop. */
  function AsWrittenSplit(s: string, delim: char, max: nat, fuel: nat): Option<seq<string>>
    requires max <= SizeMax
  {
    AsWrittenFrom(s, delim, max, SplitState(Some(0), []), fuel)
  }

  /** With `max = 2`, the call the command-line parser makes, the as-written loop returns after one round with `SplitFirst`. */
  lemma AsWrittenAtTwo(s: string, delim: char)
    ensures AsWrittenSplit(s, delim, 2, 1) == Some(SplitFirst(s, delim))
  {
    var init := SplitState(Some(0), []);
    var st := AsWrittenRound(s, delim, init);
    assert AsWrittenGuard(init, 2);
    assert !AsWrittenGuard(st, 2);
    assert AsWrittenSplit(s, delim, 2, 1) == AsWrittenFrom(s, delim, 2, st, 0);
    match Find(s, delim, 0)
    case None =>
      assert s[0..] == s;
      assert st == SplitState(None, [s]);
      assert AsWrittenFrom(s, delim, 2, st, 0) == Some([s]);
    case Some(p) =>
      assert s[0..p] == s[..p];
      assert st == SplitState(Some(p + 1), [s[..p]]);
      assert AsWrittenFrom(s, delim, 2, st, 0) == Some([s[..p]] + [s[p + 1..]]);
      assert [s[..p]] + [s[p + 1..]] == [s[..p], s[p + 1..]] == SplitFirst(s, delim);
  }

  /** With `max = 3`, `"a=b=c"` comes back as `["a", "b=c", "b=c"]`, which does not rebuild the input. */
  lemma AsWrittenDuplicates()
    ensures AsWrittenSplit("a=b=c", '=', 3, 2) == Some(["a", "b=c", "b=c"])
    ensures Join(["a", "b=c", "b=c"], '=') != "a=b=c"
  {
    var s := "a=b=c";
    assert Find(s, '=', 0) == Some(1) by {
      assert s[0] == 'a' && s[1] == '=';
    }
    var st1 := AsWrittenRound(s, '=', SplitState(Some(0), []));
    assert st1 == SplitState(Some(2), ["a"]) by {
      assert s[0..1] == "a";
    }
    var st2 := AsWrittenRound(s, '=', st1);
    assert st2 == SplitState(Some(2), ["a", "b=c"]) by {
      assert s[2..] == "b=c";
    }
    assert AsWrittenSplit(s, '=', 3, 2) == Some(["a", "b=c", "b=c"]) by {
      assert !AsWrittenGuard(st2, 3);
      assert AsWrittenSplit(s, '=', 3, 2) == AsWrittenFrom(s, '=', 3, st1, 1);
      assert AsWrittenFrom(s, '=', 3, st1, 1) == AsWrittenFrom(s, '=', 3, st2, 0);
      assert AsWrittenFrom(s, '=', 3, st2, 0) == Some(["a", "b=c"] + [s[2..]]);
      assert s[2..] == "b=c";
      assert ["a", "b=c"] + ["b=c"] == ["a", "b=c", "b=c"];
    }
    assert |Join(["a", "b=c", "b=c"], '=')| == 9;
  }

  /** Once `start` is one past the first `delim`, every round puts it back there, so under the default `max` the loop never ends. */
  lemma {:induction false} AsWrittenStuck(s: string, delim: char, p: nat, st: SplitState, fuel: nat)
    requires Find(s, delim, 0) == Some(p)
    requires st.start == Some(p + 1)
    ensures AsWrittenFrom(s, delim, SizeMax, st, fuel) == None
    decreases fuel
  {
    if fuel > 0 {
      AsWrittenStuck(s, delim, p, AsWrittenRound(s, delim, st), fuel - 1);
    }
  }

  /** Under the default `max`, the as-written `split` of a string holding `delim` returns after no number of rounds. */
  lemma AsWrittenNeverReturns(s: string, delim: char, fuel: nat)
    requires delim in s
    ensures AsWrittenSplit(s, delim, SizeMax, fuel) == None
  {
    var first := Find(s, delim, 0);
    assert first.Some?;
    if fuel > 0 {
      AsWrittenStuck(s, delim, first.value, AsWrittenRound(s, delim, SplitState(Some(0), [])), fuel - 1);
    }
  }
}
