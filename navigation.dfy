/**
 * Where the cursor lands: the scans of `find_first_unannotated` and
 * `next_sample`, and the skip that `update_image` performs when the current
 * entry's image cannot be opened. `readable` is the set of image paths that
 * open successfully.
 */
module Navigation {
  import opened Records

  /** `update_image` succeeds at `k`: the index is in range and its image opens. */
  predicate Shows(data: seq<Item>, readable: set<string>, k: int) {
    0 <= k < |data| && data[k].image in readable
  }

  /** Every image of the store opens. */
  predicate AllReadable(data: seq<Item>, readable: set<string>) {
    forall i :: 0 <= i < |data| ==> data[i].image in readable
  }

  /** The `while` loop of `next_sample` started at `j`: skip answered entries. */
  function Scan(data: seq<Item>, j: nat): (k: nat)
    ensures j <= k
    ensures k < |data| ==> !Annotated(data[k])
    ensures k >= |data| ==> k == if j <= |data| then |data| else j
    ensures forall i :: j <= i < k ==> i < |data| && Annotated(data[i])
    decreases |data| - j
  {
    if j < |data| && Annotated(data[j]) then Scan(data, j + 1) else j
  }

  /**
   * The resume position: the least index whose response is empty, or the
   * length of the store when every entry is answered.
   */
  function FirstUnannotated(data: seq<Item>): (k: nat)
    ensures k <= |data|
    ensures k < |data| ==> data[k].userResponse == ""
    ensures forall i :: 0 <= i < k ==> data[i].userResponse != ""
  {
    Scan(data, 0)
  }

  /**
   * The cursor after `update_image` at `k`: `k` itself when it shows,
   * otherwise wherever the `skip_sample` it falls back to leads.
   */
  function Settle(data: seq<Item>, readable: set<string>, k: nat): (c: nat)
    requires k <= |data|
    ensures k <= c
    ensures c == k <==> Shows(data, readable, k)
    ensures c < |data| ==> Shows(data, readable, c) && (c == k || !Annotated(data[c]))
    ensures c >= |data| ==> c == if k < |data| then |data| else k + 1
    ensures forall i :: k < i < c ==> i < |data| && (Annotated(data[i]) || data[i].image !in readable)
    decreases |data| - k, 1
  {
    if Shows(data, readable, k) then k else Advance(data, readable, k)
  }

  /**
   * The cursor after `next_sample` at `c`: the first later unanswered entry
   * whose image opens, or the end (`len(data)`, or one past it when `c`
   * already is the end).
   */
  function Advance(data: seq<Item>, readable: set<string>, c: nat): (r: nat)
    requires c <= |data|
    ensures c < r
    ensures r < |data| ==> !Annotated(data[r]) && data[r].image in readable
    ensures r >= |data| ==> r == if c < |data| then |data| else c + 1
    ensures forall i :: c < i < r ==> i < |data| && (Annotated(data[i]) || data[i].image !in readable)
    decreases |data| - c, 0
  {
    var j := Scan(data, c + 1);
    if j < |data| then Settle(data, readable, j) else j
  }

  /**
   * With every image readable, `next_sample` is the plain scan: strictly
   * forward, over answered entries only, onto an unanswered entry or the end.
   */
  lemma {:induction false} AdvanceIsScan(data: seq<Item>, readable: set<string>, c: nat)
    requires c <= |data| && AllReadable(data, readable)
    ensures Advance(data, readable, c) == Scan(data, c + 1)
  {
    var j := Scan(data, c + 1);
    if j < |data| {
      assert Shows(data, readable, j);
    }
  }

  /** Resume determinism: any index meeting the resume description is `FirstUnannotated`. */
  lemma ResumeUnique(data: seq<Item>, k: nat)
    requires k <= |data|
    requires k < |data| ==> data[k].userResponse == ""
    requires forall i :: 0 <= i < k ==> data[i].userResponse != ""
    ensures k == FirstUnannotated(data)
  {
  }

  /** Once every response is blank, resuming lands on index 0. */
  lemma ClearedResumesAtStart(data: seq<Item>)
    requires forall i :: 0 <= i < |data| ==> data[i].userResponse == ""
    ensures FirstUnannotated(data) == 0
  {
    if |data| > 0 {
      assert !Annotated(data[0]);
    }
  }

  /** Example: A unanswered, B answered TRUE, C unanswered. */
  lemma ScenarioSkipsAnswered(a: Item, b: Item, c: Item, readable: set<string>)
    requires a.userResponse == "" && b.userResponse == "TRUE" && c.userResponse == ""
    requires AllReadable([a, b, c], readable)
    ensures FirstUnannotated([a, b, c]) == 0
    ensures Advance([a.(userResponse := "FALSE"), b, c], readable, 0) == 2
  {
    var after := [a.(userResponse := "FALSE"), b, c];
    assert !Annotated([a, b, c][0]);
    assert a.image in readable && b.image in readable && c.image in readable by {
      assert [a, b, c][0] == a && [a, b, c][1] == b && [a, b, c][2] == c;
    }
    assert AllReadable(after, readable) by {
      assert after[0].image == a.image && after[1] == b && after[2] == c;
    }
    AdvanceIsScan(after, readable, 0);
    assert Annotated(after[1]) && !Annotated(after[2]);
  }
}
