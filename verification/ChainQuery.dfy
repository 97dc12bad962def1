/** How the chained sketch computes the estimates of a past time from its log (pmmg.cpp). */
module ChainQuery {
  import opened Counts
  import opened ChainLog
  import opened Timeline

  /** `create_tmp_cnt_at`: the last checkpoint not after ts, found by `upper_bound`, and its deltas. */
  method TmpCntAt(third: Third, checkpoints: seq<Checkpoint>, ts: nat) returns (est: Table)
    requires forall i, j :: 0 <= i < j < |checkpoints| ==> checkpoints[i].ts < checkpoints[j].ts
    ensures est == EstimateAt(third, checkpoints, ts)
  {
    hide Opening, Allow;
    var lo, hi := 0, |checkpoints|;
    while lo < hi
      invariant 0 <= lo <= hi <= |checkpoints|
      invariant forall i :: 0 <= i < lo ==> checkpoints[i].ts <= ts
      invariant forall i :: hi <= i < |checkpoints| ==> ts < checkpoints[i].ts
    {
      var mid := (lo + hi) / 2;
      if ts < checkpoints[mid].ts { hi := mid; } else { lo := mid + 1; }
    }
    Covering(third, checkpoints, lo, ts);
    if lo == 0 { return map[]; }
    var c := checkpoints[lo - 1];
    assert checkpoints[..lo][|checkpoints[..lo]| - 1] == c;
    est := ReplayFrom(third, c, ts);
  }

  method ReplayFrom(third: Third, c: Checkpoint, ts: nat) returns (est: Table)
    ensures est == Replay(third, Opening(third, c), c.deltas, ts)
  {
    hide Allow;
    est := Opened(third, c);
    var n := 0;
    while n < |c.deltas| && c.deltas[n].ts <= ts
      invariant n <= |c.deltas|
      invariant Replay(third, est, c.deltas[n..], ts) == Replay(third, Opening(third, c), c.deltas, ts)
    {
      var d := c.deltas[n];
      assert c.deltas[n..][0] == d && c.deltas[n..][1..] == c.deltas[n + 1..];
      if d.newCnt == 0 {
        est := est - {d.key};
      } else {
        var slack := Allow(third, d.total);
        est := if d.newCnt > slack then est[d.key := d.newCnt - slack] else est - {d.key};
      }
      n := n + 1;
    }
  }

  /** The first loop of a replay. */
  method Opened(third: Third, c: Checkpoint) returns (est: Table)
    ensures est == Opening(third, c)
  {
    var d := Allow(third, c.total);
    est := map[];
    var todo := c.counts.Keys;
    while todo != {}
      invariant todo <= c.counts.Keys
      invariant forall x :: x in est <==> x in c.counts.Keys - todo && c.counts[x] > d
      invariant forall x <- est :: est[x] == c.counts[x] - d
    {
      var x :| x in todo;
      todo := todo - {x};
      if c.counts[x] > d { est := est[x := c.counts[x] - d]; }
    }
    assert est == Opening(third, c);
  }
}
