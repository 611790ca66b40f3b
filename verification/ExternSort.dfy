/** External sort: sorted runs of bounded size, then one merge over all of them. */
module ExternSort {
  import opened Slices

  /** One record; ranks order records, highest first. */
  datatype Item = Item(rank: real, text: string)

  /** A run file: closed, or open with what is still to be read. */
  datatype RunFile = Closed | Open(rest: seq<Item>)

  // ---------------------------------------------------------------- order and contents

  ghost predicate Descending(s: seq<Item>) {
    forall i, j :: 0 <= i < j < |s| ==> s[i].rank >= s[j].rank
  }

  /** Taking the first record of one run takes it out of the whole. */
  lemma {:induction false} FlatTake(runs: seq<seq<Item>>, k: nat)
    requires k < |runs| && runs[k] != []
    ensures multiset(Flat(runs)) == multiset(Flat(runs[k := runs[k][1..]])) + multiset{runs[k][0]}
    ensures |Flat(runs)| == |Flat(runs[k := runs[k][1..]])| + 1
  {
    var r := runs[k];
    assert r == [r[0]] + r[1..];
    var runs' := runs[k := r[1..]];
    if k == 0 {
      assert runs'[1..] == runs[1..];
    } else {
      FlatTake(runs[1..], k - 1);
      assert runs'[1..] == runs[1..][k - 1 := runs[1..][k - 1][1..]];
    }
  }

  lemma {:induction false} FlatEmpty(runs: seq<seq<Item>>)
    requires forall k :: 0 <= k < |runs| ==> runs[k] == []
    ensures Flat(runs) == []
  {
    if runs != [] {
      FlatEmpty(runs[1..]);
    }
  }

  // ---------------------------------------------------------------- std::sort

  function InsertSorted(s: seq<Item>, x: Item): (r: seq<Item>)
    ensures multiset(r) == multiset(s) + multiset{x}
  {
    if s == [] then [x]
    else if x.rank > s[0].rank then [x] + s
    else
      assert s == [s[0]] + s[1..];
      [s[0]] + InsertSorted(s[1..], x)
  }

  lemma {:induction false} InsertDescending(s: seq<Item>, x: Item)
    requires Descending(s)
    ensures Descending(InsertSorted(s, x))
  {
    if s != [] && x.rank <= s[0].rank {
      InsertDescending(s[1..], x);
      var r := InsertSorted(s[1..], x);
      forall j | 0 <= j < |r|
        ensures s[0].rank >= r[j].rank
      {
        assert r[j] in multiset(s[1..]) + multiset{x};
        assert r[j] in s[1..] || r[j] == x;
      }
    }
  }

  /** Any sort by rank that keeps the records; the order of equal ranks is left open. */
  method StdSort(s: seq<Item>) returns (r: seq<Item>)
    ensures Descending(r) && multiset(r) == multiset(s) && |r| == |s|
  {
    r := [];
    for i := 0 to |s|
      invariant Descending(r) && multiset(r) == multiset(s[..i]) && |r| == i
    {
      InsertDescending(r, s[i]);
      assert s[..i + 1] == s[..i] + [s[i]];
      r := InsertSorted(r, s[i]);
      assert |multiset(r)| == |multiset(s[..i + 1])|;
    }
    assert s[..|s|] == s;
  }

  // ---------------------------------------------------------------- the merge, on values

  /** What each run still holds: its record in memory, then what is left in its file. */
  ghost function Pending(fp: seq<RunFile>, rank: seq<real>, text: seq<string>): (r: seq<seq<Item>>)
    requires |fp| == |rank| == |text|
    ensures |r| == |fp|
    ensures forall i :: 0 <= i < |fp| ==> r[i] == PendingOf(fp[i], rank[i], text[i])
  {
    seq(|fp|, i requires 0 <= i < |fp| => PendingOf(fp[i], rank[i], text[i]))
  }

  ghost function PendingOf(f: RunFile, rank: real, text: string): seq<Item> {
    match f
    case Closed => []
    case Open(rest) => [Item(rank, text)] + rest
  }

  /** Every run is sorted, and nothing pending outranks what was handed out. */
  ghost predicate MergeOk(runs: seq<seq<Item>>, out: seq<Item>) {
    && (forall i :: 0 <= i < |runs| ==> Descending(runs[i]))
    && Descending(out)
    && forall i, j, k :: 0 <= i < |out| && 0 <= j < |runs| && 0 <= k < |runs[j]| ==> out[i].rank >= runs[j][k].rank
  }

  /** A run from which the first record was taken holds the later ones. */
  lemma LaterRecord(runs: seq<seq<Item>>, m: nat, j: nat, k: nat) returns (at: nat)
    requires m < |runs| && runs[m] != [] && j < |runs| && k < |runs[m := runs[m][1..]][j]|
    ensures at < |runs[j]| && runs[m := runs[m][1..]][j][k] == runs[j][at]
  {
    at := if j == m then k + 1 else k;
  }

  lemma MergeStepOk(runs: seq<seq<Item>>, out: seq<Item>, m: nat)
    requires MergeOk(runs, out) && m < |runs| && runs[m] != []
    requires forall j :: 0 <= j < |runs| && runs[j] != [] ==> runs[m][0].rank >= runs[j][0].rank
    ensures MergeOk(runs[m := runs[m][1..]], out + [runs[m][0]])
  {
    var x, out' := runs[m][0], out + [runs[m][0]];
    var runs': seq<seq<Item>> := runs[m := runs[m][1..]];
    forall i, j, k | 0 <= i < |out'| && 0 <= j < |runs'| && 0 <= k < |runs'[j]|
      ensures out'[i].rank >= runs'[j][k].rank
    {
      var at := LaterRecord(runs, m, j, k);
      assert runs[j][0].rank >= runs[j][at].rank;
    }
  }

  /** Handing out the first record of a run whose first record no other run outranks. */
  lemma MergeStep(runs: seq<seq<Item>>, out: seq<Item>, m: nat)
    requires MergeOk(runs, out) && m < |runs| && runs[m] != []
    requires forall j :: 0 <= j < |runs| && runs[j] != [] ==> runs[m][0].rank >= runs[j][0].rank
    ensures MergeOk(runs[m := runs[m][1..]], out + [runs[m][0]])
    ensures multiset(out + [runs[m][0]]) + multiset(Flat(runs[m := runs[m][1..]]))
            == multiset(out) + multiset(Flat(runs))
    ensures |Flat(runs[m := runs[m][1..]])| < |Flat(runs)|
  {
    MergeStepOk(runs, out, m);
    hide Flat, MergeOk;
    FlatTake(runs, m);
    assert multiset(out + [runs[m][0]]) == multiset(out) + multiset{runs[m][0]};
  }

  lemma MergeStart(runs: seq<seq<Item>>)
    requires forall i :: 0 <= i < |runs| ==> Descending(runs[i])
    ensures MergeOk(runs, [])
  {
  }

  lemma MergeEnd(runs: seq<seq<Item>>, out: seq<Item>)
    requires MergeOk(runs, out) && forall k :: 0 <= k < |runs| ==> runs[k] == []
    ensures Descending(out) && Flat(runs) == []
  {
    FlatEmpty(runs);
  }

  /** The run files hold the segments segs of the records read, each in some order, and memory the rest. */
  ghost predicate Segmented(files: seq<seq<Item>>, memory: seq<Item>, segs: seq<seq<Item>>, seen: seq<Item>) {
    && seen == Flat(segs) + memory && |segs| == |files|
    && forall i :: 0 <= i < |segs| ==> multiset(files[i]) == multiset(segs[i])
  }

  /** No segment is empty or longer than n, or all have just that length. */
  predicate Sized(segs: seq<seq<Item>>, n: nat, full: bool) {
    forall i :: 0 <= i < |segs| ==> 0 < |segs[i]| <= n && (full ==> |segs[i]| == n)
  }

  /** How far the count is above the last multiple of n. */
  function Over(count: nat, n: nat): (r: nat)
    requires n > 0
    ensures r < n
  {
    count % n
  }

  lemma SegmentedNone(n: nat)
    requires n > 0
    ensures Segmented([], [], [], []) && Sized([], n, true) && Sized([], n, false) && Over(0, n) == 0
  {
    RestOf(0, n, 0, 0);
  }

  lemma SegmentGrows(files: seq<seq<Item>>, memory: seq<Item>, segs: seq<seq<Item>>, seen: seq<Item>, x: Item)
    requires Segmented(files, memory, segs, seen)
    ensures Segmented(files, memory + [x], segs, seen + [x])
  {
    hide Flat;
    assert seen + [x] == Flat(segs) + (memory + [x]);
  }

  lemma SegmentSpilled(files: seq<seq<Item>>, memory: seq<Item>, segs: seq<seq<Item>>, seen: seq<Item>,
                       files': seq<seq<Item>>)
    requires Segmented(files, memory, segs, seen) && |files'| == |files| + 1 && files'[..|files|] == files
    requires multiset(files'[|files|]) == multiset(memory)
    ensures Segmented(files', [], segs + [memory], seen)
  {
    hide Flat;
    FlatAppend(segs, memory);
    assert Flat(segs + [memory]) + [] == seen;
    assert forall i :: 0 <= i < |files| ==> files'[i] == files[i];
  }

  lemma SizedSnoc(segs: seq<seq<Item>>, s: seq<Item>, n: nat)
    requires 0 < |s| <= n
    ensures Sized(segs, n, false) ==> Sized(segs + [s], n, false)
    ensures |s| == n && Sized(segs, n, true) ==> Sized(segs + [s], n, true)
    ensures (segs + [s])[..|segs| + 1 - 1] == segs
  {
  }

  lemma SizedInit(segs: seq<seq<Item>>, n: nat)
    ensures segs != [] && Sized(segs, n, true) ==> Sized(segs[..|segs| - 1], n, true)
  {
  }

  lemma PendingFirst(run: seq<Item>)
    requires run != []
    ensures PendingOf(Open(run[1..]), run[0].rank, run[0].text) == run
  {
  }

  class CBaseExternSort {
    const m_sort_num: nat
    var m_sort_item: seq<Item>
    var m_sort_file: seq<seq<Item>>
    /** The records handed to SetItem, in order. */
    var output: seq<Item>

    constructor (sort_num: nat)
      ensures m_sort_num == sort_num && m_sort_item == [] && m_sort_file == [] && output == []
    {
      m_sort_num, m_sort_item, m_sort_file, output := sort_num, [], [], [];
    }

    /** Writes the sorted records to a new run file; a record without text fails. */
    method WriteFile() returns (ok: bool)
      modifies `m_sort_file
      ensures ok <==> forall x :: x in m_sort_item ==> x.text != []
      ensures ok ==> m_sort_file == old(m_sort_file) + [m_sort_item]
    {
      var fp: seq<Item> := [];
      for i := 0 to |m_sort_item|
        invariant fp == m_sort_item[..i]
        invariant forall x :: x in fp ==> x.text != []
        invariant m_sort_file == old(m_sort_file)
      {
        if m_sort_item[i].text == [] {
          m_sort_file := m_sort_file + [fp];
          return false;
        }
        fp := fp + [m_sort_item[i]];
      }
      assert m_sort_item[..|m_sort_item|] == m_sort_item;
      m_sort_file := m_sort_file + [fp];
      return true;
    }

    /** The runs written so far are sorted, not empty, and hold the records read so far. */
    ghost predicate RunsOk(seen: seq<Item>)
      reads this
    {
      && (forall i :: 0 <= i < |m_sort_file| ==> m_sort_file[i] != [] && Descending(m_sort_file[i]))
      && multiset(Flat(m_sort_file)) + multiset(m_sort_item) == multiset(seen)
    }

    /** Sorts what is in memory and writes it out as one run. */
    method Spill(ghost seen: seq<Item>, ghost segs: seq<seq<Item>>) returns (ok: bool)
      requires RunsOk(seen) && m_sort_item != [] && Segmented(m_sort_file, m_sort_item, segs, seen)
      modifies this
      ensures ok <==> forall x :: x in old(m_sort_item) ==> x.text != []
      ensures ok ==> RunsOk(seen) && m_sort_item == [] && m_sort_file != []
      ensures ok ==> Segmented(m_sort_file, [], segs + [old(m_sort_item)], seen)
      ensures output == old(output)
    {
      hide Segmented;
      ghost var items, files := m_sort_item, m_sort_file;
      m_sort_item := StdSort(m_sort_item);
      assert forall x :: x in items <==> x in multiset(items);
      assert forall x :: x in m_sort_item <==> x in multiset(m_sort_item);
      ok := WriteFile();
      if !ok {
        return false;
      }
      FlatAppend(files, m_sort_item);
      SegmentSpilled(files, items, segs, seen, m_sort_file);
      m_sort_item := [];
    }

    /** Keeps one more record, spilling a run when the 32-bit count reaches a multiple of the run size. Between
        two calls fewer records than the run size are in memory. */
    method Keep(x: Item, count: nat, ghost seen: seq<Item>, ghost segs: seq<seq<Item>>)
      returns (ok: bool, next: nat, ghost segs': seq<seq<Item>>)
      requires m_sort_num > 0 && RunsOk(seen) && TextsOk(seen, m_sort_item)
      requires Segmented(m_sort_file, m_sort_item, segs, seen)
      requires count < 0x1_0000_0000 && |m_sort_item| == Over(count, m_sort_num)
      modifies this
      ensures next == (count + 1) % 0x1_0000_0000
      ensures ok ==> Segmented(m_sort_file, m_sort_item, segs', seen + [x]) && |m_sort_item| == Over(next, m_sort_num)
      ensures Sized(segs, m_sort_num, false) ==> Sized(segs', m_sort_num, false)
      ensures next != 0 && Sized(segs, m_sort_num, true) ==> Sized(segs', m_sort_num, true)
      ensures ok ==> RunsOk(seen + [x]) && TextsOk(seen + [x], m_sort_item)
      ensures ok ==> m_sort_item != [] || m_sort_file != []
      ensures !ok ==> exists y :: y in seen + [x] && y.text == []
      ensures output == old(output)
    {
      assert multiset(m_sort_item + [x]) == multiset(m_sort_item) + multiset{x};
      assert multiset(seen + [x]) == multiset(seen) + multiset{x};
      hide Flat, Segmented, Sized, Over;
      SegmentGrows(m_sort_file, m_sort_item, segs, seen, x);
      m_sort_item := m_sort_item + [x];
      next := (count + 1) % 0x1_0000_0000;
      ok, segs' := true, segs;
      CountWraps(count);
      CountNext(count, m_sort_num, next);
      if next % m_sort_num == 0 {
        InMemory(seen + [x], m_sort_item, Flat(m_sort_file));
        segs' := segs + [m_sort_item];
        SizedSnoc(segs, m_sort_item, m_sort_num);
        ok := Spill(seen + [x], segs);
      }
    }

    /** Reads all records into sorted runs. */
    method MemorySort(input: seq<Item>) returns (ok: bool, ghost segs: seq<seq<Item>>)
      requires m_sort_num > 0 && m_sort_item == [] && m_sort_file == [] && output == []
      modifies this
      ensures ok ==> Segmented(m_sort_file, [], segs, input) && Sized(segs, m_sort_num, false)
      ensures ok && |input| < 0x1_0000_0000 && segs != [] ==> Sized(segs[..|segs| - 1], m_sort_num, true)
      ensures ok <==> forall x :: x in input ==> x.text != []
      ensures ok ==> RunsOk(input) && m_sort_item == []
      ensures ok && input != [] ==> m_sort_file != []
      ensures output == []
    {
      hide Flat, Segmented, Sized, Over;
      var count: nat := 0;
      segs := [];
      SegmentedNone(m_sort_num);
      for k := 0 to |input|
        invariant RunsOk(input[..k]) && output == []
        invariant Segmented(m_sort_file, m_sort_item, segs, input[..k])
        invariant count < 0x1_0000_0000 && |m_sort_item| == Over(count, m_sort_num)
        invariant |input| < 0x1_0000_0000 ==> count == k && Sized(segs, m_sort_num, true)
        invariant Sized(segs, m_sort_num, false)
        invariant TextsOk(input[..k], m_sort_item)
        invariant k > 0 ==> m_sort_item != [] || m_sort_file != []
      {
        assert input[..k + 1] == input[..k] + [input[k]];
        ok, count, segs := Keep(input[k], count, input[..k], segs);
        if !ok {
          return false, segs;
        }
      }
      assert input[..|input|] == input;
      if |m_sort_item| != 0 {
        InMemory(input, m_sort_item, Flat(m_sort_file));
        SizedSnoc(segs, m_sort_item, m_sort_num);
        ghost var items := m_sort_item;
        ok := Spill(input, segs);
        return ok, segs + [items];
      }
      SizedInit(segs, m_sort_num);
      return true, segs;
    }

    /** SetItem: hands one record to the caller. */
    method SetItem(rank: real, item: string)
      modifies `output
      ensures output == old(output) + [Item(rank, item)]
    {
      output := output + [Item(rank, item)];
    }

    /** Reads the next record of run i, if the run is open and has one. */
    method ReadFile(fp_list: array<RunFile>, i: nat) returns (ok: bool, rank: real, item: string)
      requires i < fp_list.Length
      modifies fp_list
      ensures ok <==> old(fp_list[i]).Open? && old(fp_list[i]).rest != []
      ensures ok ==> fp_list[..] == old(fp_list[..])[i := Open(old(fp_list[i]).rest[1..])]
      ensures ok ==> old(fp_list[i]).rest[0] == Item(rank, item)
      ensures !ok ==> fp_list[..] == old(fp_list[..])
    {
      rank, item := 0.0, [];
      if fp_list[i].Closed? || fp_list[i].rest == [] {
        return false, rank, item;
      }
      var x := fp_list[i].rest[0];
      fp_list[i] := Open(fp_list[i].rest[1..]);
      return true, x.rank, x.text;
    }

    /** Replaces the record of run m by the next one of its file, or closes the run. */
    method Advance(fp_list: array<RunFile>, vect_rank: array<real>, vect_item: array<string>, m: nat) returns (ok: bool)
      requires fp_list.Length == vect_rank.Length == vect_item.Length
      requires m < fp_list.Length && fp_list[m].Open?
      modifies fp_list, vect_rank, vect_item
      ensures ok <==> fp_list[m].Open?
      ensures forall i :: 0 <= i < fp_list.Length && i != m ==>
                fp_list[i] == old(fp_list[i]) && vect_rank[i] == old(vect_rank[i]) && vect_item[i] == old(vect_item[i])
      ensures var runs := old(Pending(fp_list[..], vect_rank[..], vect_item[..]));
              Pending(fp_list[..], vect_rank[..], vect_item[..]) == runs[m := runs[m][1..]]
    {
      ghost var runs := Pending(fp_list[..], vect_rank[..], vect_item[..]);
      var rank, item;
      ok, rank, item := ReadFile(fp_list, m);
      if !ok {
        fp_list[m] := Closed;
      } else {
        vect_rank[m] := rank;
        vect_item[m] := item;
      }
      ghost var runs' := Pending(fp_list[..], vect_rank[..], vect_item[..]);
      assert runs'[m] == runs[m][1..];
    }

    /** The first open run, if there is one. */
    method FirstOpen(fp_list: array<RunFile>) returns (quit: bool, j: nat)
      ensures quit ==> forall i :: 0 <= i < fp_list.Length ==> fp_list[i].Closed?
      ensures !quit ==> j < fp_list.Length && fp_list[j].Open?
    {
      quit, j := true, 0;
      while j < fp_list.Length
        invariant j <= fp_list.Length && quit
        invariant forall i :: 0 <= i < j ==> fp_list[i].Closed?
      {
        if fp_list[j].Open? {
          quit := false;
          break;
        }
        j := j + 1;
      }
    }

    /** Starting from open run max_index, the open run whose record has the highest rank. */
    method SelectMax(fp_list: array<RunFile>, vect_rank: array<real>, start: nat, rank: real)
      returns (max_index: nat, max_rank: real)
      requires fp_list.Length == vect_rank.Length && start < fp_list.Length
      requires fp_list[start].Open? && rank == vect_rank[start]
      ensures max_index < fp_list.Length && fp_list[max_index].Open? && max_rank == vect_rank[max_index]
      ensures forall i :: 0 <= i < fp_list.Length && fp_list[i].Open? ==> max_rank >= vect_rank[i]
    {
      max_index, max_rank := start, rank;
      for i := 0 to vect_rank.Length
        invariant max_index < fp_list.Length && fp_list[max_index].Open? && max_rank == vect_rank[max_index]
        invariant forall k :: 0 <= k < i && fp_list[k].Open? ==> max_rank >= vect_rank[k]
      {
        if fp_list[i].Open? {
          if vect_rank[i] > max_rank {
            max_rank := vect_rank[i];
            max_index := i;
          }
        }
      }
    }

    /** Opens every run file and reads its first record. */
    method OpenAll() returns (fp_list: array<RunFile>, vect_rank: array<real>, vect_item: array<string>)
      requires forall i :: 0 <= i < |m_sort_file| ==> m_sort_file[i] != []
      ensures fresh(fp_list) && fresh(vect_rank) && fresh(vect_item)
      ensures fp_list.Length == vect_rank.Length == vect_item.Length == |m_sort_file|
      ensures Pending(fp_list[..], vect_rank[..], vect_item[..]) == m_sort_file
      ensures forall i :: 0 <= i < fp_list.Length ==> fp_list[i].Open?
    {
      hide PendingOf;
      var n, files := |m_sort_file|, m_sort_file;
      fp_list := new RunFile[n](i requires 0 <= i < n => Open(files[i]));
      vect_rank := new real[n](_ => 0.0);
      vect_item := new string[n](_ => []);
      for i := 0 to n
        invariant n == |m_sort_file|
        invariant forall k :: i <= k < n ==> fp_list[k] == Open(m_sort_file[k])
        invariant forall k :: 0 <= k < i ==>
                    fp_list[k].Open? && PendingOf(fp_list[k], vect_rank[k], vect_item[k]) == m_sort_file[k]
      {
        var ok, rank, item := ReadFile(fp_list, i);
        vect_rank[i] := rank;
        vect_item[i] := item;
        PendingFirst(files[i]);
      }
    }

    /** One round of the merge: hand out the highest pending record and find where to go on. */
    method MergeNext(fp_list: array<RunFile>, vect_rank: array<real>, vect_item: array<string>, start: nat, rank: real)
      returns (quit: bool, max_index: nat, max_rank: real)
      requires fp_list.Length == vect_rank.Length == vect_item.Length
      requires start < fp_list.Length && fp_list[start].Open? && rank == vect_rank[start]
      requires MergeOk(Pending(fp_list[..], vect_rank[..], vect_item[..]), output)
      modifies `output, fp_list, vect_rank, vect_item
      ensures var runs := Pending(fp_list[..], vect_rank[..], vect_item[..]);
              var runs0 := old(Pending(fp_list[..], vect_rank[..], vect_item[..]));
              && MergeOk(runs, output)
              && |Flat(runs)| < |Flat(runs0)|
              && multiset(output) + multiset(Flat(runs)) == multiset(old(output)) + multiset(Flat(runs0))
              && (quit ==> forall i :: 0 <= i < |runs| ==> runs[i] == [])
      ensures !quit ==> max_index < fp_list.Length && fp_list[max_index].Open? && max_rank == vect_rank[max_index]
    {
      hide MergeOk, Flat;
      ghost var runs := Pending(fp_list[..], vect_rank[..], vect_item[..]);
      max_index, max_rank := SelectMax(fp_list, vect_rank, start, rank);
      MergeStep(runs, output, max_index);
      SetItem(vect_rank[max_index], vect_item[max_index]);
      var more := Advance(fp_list, vect_rank, vect_item, max_index);
      quit := false;
      if !more {
        quit, max_index := FirstOpen(fp_list);
        if !quit {
          max_rank := vect_rank[max_index];
        }
      } else {
        max_rank := vect_rank[max_index];
      }
    }

    /** Merges all runs, handing out the highest pending rank each time. */
    method MergeSort() returns (ok: bool)
      requires m_sort_file != [] && output == []
      requires forall i :: 0 <= i < |m_sort_file| ==> m_sort_file[i] != [] && Descending(m_sort_file[i])
      modifies `output
      ensures ok && Descending(output) && multiset(output) == multiset(Flat(m_sort_file))
    {
      hide MergeOk, Flat, Pending;
      var fp_list, vect_rank, vect_item := OpenAll();
      MergeStart(m_sort_file);
      var quit, max_index: nat, max_rank := false, 0, vect_rank[0];
      while !quit
        invariant fp_list.Length == vect_rank.Length == vect_item.Length
        invariant var runs := Pending(fp_list[..], vect_rank[..], vect_item[..]);
                  && MergeOk(runs, output)
                  && multiset(output) + multiset(Flat(runs)) == multiset(Flat(m_sort_file))
                  && (quit ==> forall i :: 0 <= i < |runs| ==> runs[i] == [])
        invariant !quit ==> max_index < fp_list.Length && fp_list[max_index].Open? && max_rank == vect_rank[max_index]
        decreases |Flat(Pending(fp_list[..], vect_rank[..], vect_item[..]))|, if quit then 0 else 1
      {
        quit, max_index, max_rank := MergeNext(fp_list, vect_rank, vect_item, max_index, max_rank);
      }
      MergeEnd(Pending(fp_list[..], vect_rank[..], vect_item[..]), output);
      return true;
    }

    /** Sorts the input: the records come out in an order of descending rank, none lost or added,
        unless some record has no text. */
    method Sort(input: seq<Item>) returns (ok: bool)
      requires m_sort_num > 0 && input != []
      requires m_sort_item == [] && m_sort_file == [] && output == []
      modifies this
      ensures ok <==> forall x :: x in input ==> x.text != []
      ensures ok ==> Descending(output) && multiset(output) == multiset(input)
      ensures ok ==> |output| == |input| && forall i, j :: 0 <= i < j < |output| ==> output[i].rank >= output[j].rank
    {
      ghost var segs;
      ok, segs := MemorySort(input);
      if !ok {
        return false;
      }
      ok := MergeSort();
    }
  }

  lemma CountWraps(count: nat)
    requires count < 0x1_0000_0000
    ensures (count + 1) % 0x1_0000_0000 == if count + 1 < 0x1_0000_0000 then count + 1 else 0
  {
  }

  lemma CountNext(count: nat, n: nat, next: nat)
    requires n > 0 && (next == count + 1 || next == 0)
    ensures if next % n == 0 then Over(next, n) == 0 && (next != 0 ==> Over(count, n) == n - 1)
            else Over(next, n) == Over(count, n) + 1
    ensures Over(count, n) < n
  {
    DivMod(count, n);
    if next == 0 {
      RestOf(0, n, 0, 0);
    } else {
      ModNext(count, n);
    }
  }

  lemma ModNext(x: nat, n: nat)
    requires n > 0
    ensures (x + 1) % n == if x % n == n - 1 then 0 else x % n + 1
  {
    var q, r := x / n, x % n;
    DivMod(x, n);
    if r == n - 1 {
      OneMoreOf(n, q);
      RestOf(x + 1, n, q + 1, 0);
    } else {
      RestOf(x + 1, n, q, r + 1);
    }
  }

  lemma DivMod(x: nat, n: nat)
    requires n > 0
    ensures x == n * (x / n) + x % n && x % n < n
  {
  }

  lemma OneMoreOf(n: nat, q: nat)
    ensures n * (q + 1) == n * q + n
  {
  }

  lemma RestOf(x: nat, n: nat, q: nat, r: nat)
    requires x == n * q + r && r < n
    ensures x % n == r
  {
    var p, s := x / n, x % n;
    DivMod(x, n);
    if p < q {
      Apart(n, p, q);
    } else if p > q {
      Apart(n, q, p);
    }
  }

  lemma {:induction false} Apart(n: nat, p: nat, q: nat)
    requires p < q
    ensures n * q >= n * p + n
    decreases q
  {
    OneMoreOf(n, q - 1);
    if p + 1 < q {
      Apart(n, p, q - 1);
    }
  }

  /** Records that already went into a run had a text. */
  ghost predicate TextsOk(seen: seq<Item>, memory: seq<Item>) {
    forall x :: x in seen ==> x in memory || x.text != []
  }

  /** A record in memory is one of the records read. */
  lemma InMemory(seen: seq<Item>, item: seq<Item>, flat: seq<Item>)
    requires multiset(flat) + multiset(item) == multiset(seen)
    ensures forall x :: x in item ==> x in seen
  {
    forall x | x in item
      ensures x in seen
    {
      assert x in multiset(flat) + multiset(item);
      assert x in multiset(seen);
    }
  }
}
