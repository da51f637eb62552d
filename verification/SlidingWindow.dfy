/**
 * Remembering only the last `window` marks of what was shown. A stream built batch by batch, each
 * batch free of repeats and of anything remembered, never repeats an entry within the window.
 */
module SlidingWindow {
  import opened Sequences

  /** Each batch avoids repeats and the last `window` marks of everything shown before it. */
  ghost predicate AvoidsRecent<K>(batches: seq<seq<K>>, window: nat) {
    forall k :: 0 <= k < |batches| ==>
      Distinct(batches[k]) && AvoidsAll(batches[k], LastN(Flatten(batches[..k]), window))
  }

  ghost predicate AvoidsAll<K>(batch: seq<K>, recent: seq<K>) {
    forall x :: x in batch ==> x !in recent
  }

  /** Equal marks are more than `window` positions apart. */
  ghost predicate NoRepeatWithin<K>(stream: seq<K>, window: nat) {
    forall i, j :: 0 <= i < j < |stream| && stream[i] == stream[j] ==> j - i > window
  }

  /** Appending and trimming again keeps exactly the end of the whole stream. */
  lemma TrimAfterAppend<K>(stream: seq<K>, batch: seq<K>, window: nat)
    ensures LastN(LastN(stream, window) + batch, window) == LastN(stream + batch, window)
  {
  }

  lemma AppendBatch<K>(stream: seq<K>, batch: seq<K>, window: nat)
    requires NoRepeatWithin(stream, window)
    requires Distinct(batch) && AvoidsAll(batch, LastN(stream, window))
    ensures NoRepeatWithin(stream + batch, window)
  {
    var all := stream + batch;
    forall i, j | 0 <= i < j < |all| && all[i] == all[j] ensures j - i > window {
      if j < |stream| {
        assert stream[i] == stream[j];
      } else if i < |stream| {
        RecentEntry(stream, window, i);
        assert all[j] == batch[j - |stream|] && all[j] in batch;
      }
    }
  }

  lemma RecentEntry<K>(stream: seq<K>, window: nat, i: nat)
    requires i < |stream|
    ensures |stream| - i <= window ==> stream[i] in LastN(stream, window)
  {
    if |stream| - i <= window {
      var recent := LastN(stream, window);
      assert recent[i - (|stream| - |recent|)] == stream[i];
    }
  }

  lemma PrefixAvoidsRecent<K>(batches: seq<seq<K>>, n: nat, window: nat)
    requires AvoidsRecent(batches, window) && n <= |batches|
    ensures AvoidsRecent(batches[..n], window)
  {
    var front := batches[..n];
    forall k | 0 <= k < n ensures Distinct(front[k]) && AvoidsAll(front[k], LastN(Flatten(front[..k]), window)) {
      assert front[..k] == batches[..k] && front[k] == batches[k];
    }
  }

  lemma {:induction false} WindowedStream<K>(batches: seq<seq<K>>, window: nat)
    requires AvoidsRecent(batches, window)
    ensures NoRepeatWithin(Flatten(batches), window)
  {
    if batches != [] {
      var n := |batches| - 1;
      PrefixAvoidsRecent(batches, n, window);
      WindowedStream(batches[..n], window);
      AppendBatch(Flatten(batches[..n]), batches[n], window);
    }
  }

  // ---- what is seen of the stream ----

  /** An entry of the stream that is shown, or remembered without being shown. */
  datatype Mark<K> = Mark(key: K, isShown: bool)

  function Keys<K>(marks: seq<Mark<K>>): seq<K> {
    seq(|marks|, i requires 0 <= i < |marks| => marks[i].key)
  }

  function Shown<K>(marks: seq<Mark<K>>): seq<K> {
    if marks == [] then []
    else
      var last := marks[|marks| - 1];
      Shown(marks[..|marks| - 1]) + if last.isShown then [last.key] else []
  }

  function Hidden<K>(marks: seq<Mark<K>>): nat {
    if marks == [] then 0
    else Hidden(marks[..|marks| - 1]) + if marks[|marks| - 1].isShown then 0 else 1
  }

  /** Where in the stream the p-th shown entry is. */
  function Position<K>(marks: seq<Mark<K>>, p: nat): (i: nat)
    requires p < |Shown(marks)|
    ensures i < |marks| && marks[i].isShown && marks[i].key == Shown(marks)[p]
    ensures |Shown(marks[..i])| == p
  {
    var n := |marks| - 1;
    if p < |Shown(marks[..n])| then
      var i := Position(marks[..n], p);
      assert marks[..n][..i] == marks[..i];
      i
    else n
  }

  lemma {:induction false} ShownGrows<K>(marks: seq<Mark<K>>, i: nat, j: nat)
    requires i <= j <= |marks|
    ensures |Shown(marks[..j])| - |Shown(marks[..i])| + Hidden(marks[i..j]) == j - i
    ensures |Shown(marks[..i])| <= |Shown(marks[..j])|
  {
    if i < j {
      ShownGrows(marks, i, j - 1);
      assert marks[..j][..j - 1] == marks[..j - 1] && marks[i..j][..j - 1 - i] == marks[i..j - 1];
    }
  }

  lemma HiddenInPart<K>(marks: seq<Mark<K>>, i: nat, j: nat)
    requires i <= j <= |marks|
    ensures Hidden(marks[i..j]) <= Hidden(marks)
  {
    ShownGrows(marks, 0, i);
    ShownGrows(marks, i, j);
    ShownGrows(marks, j, |marks|);
    ShownGrows(marks, 0, |marks|);
    assert marks[0..|marks|] == marks;
  }

  /** Shown twice, an entry has more than `window` places between, counting those not shown. */
  lemma ShownNeverRepeats<K>(marks: seq<Mark<K>>, window: nat, p: nat, q: nat)
    requires NoRepeatWithin(Keys(marks), window)
    requires p < q < |Shown(marks)| && Shown(marks)[p] == Shown(marks)[q]
    ensures var i, j := Position(marks, p), Position(marks, q);
            i < j && q - p + Hidden(marks[i..j]) > window
    ensures q - p + Hidden(marks) > window
  {
    var i, j := Position(marks, p), Position(marks, q);
    if j <= i {
      ShownGrows(marks, j, i);
    } else {
      ShownGrows(marks, i, j);
      HiddenInPart(marks, i, j);
      assert Keys(marks)[i] == Keys(marks)[j];
    }
  }

  lemma {:induction false} ShownConcat<K>(a: seq<Mark<K>>, b: seq<Mark<K>>)
    ensures Shown(a + b) == Shown(a) + Shown(b)
    ensures Keys(a + b) == Keys(a) + Keys(b)
  {
    if b == [] {
      assert a + b == a;
    } else {
      var front := b[..|b| - 1];
      ShownConcat(a, front);
      assert (a + b)[..|a + b| - 1] == a + front;
    }
  }
}
