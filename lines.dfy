/**
 * The two ways WretchDL_Lite.rb scans a page with `each_line`: collecting
 * one value from every line a pattern matches, in line order, and keeping
 * only the value of the last line it matches. The per-line pattern is a
 * parameter `m`, so these facts are proved once for every scan.
 */
module Lines {
  import opened Wrappers

  /** The values of the lines `m` matches, in line order. */
  function Collect<T>(page: seq<string>, m: string -> Option<T>): seq<T>
    decreases |page|
  {
    if page == [] then []
    else
      var rest := Collect(page[..|page| - 1], m);
      match m(page[|page| - 1])
      case Some(x) => rest + [x]
      case None => rest
  }

  /** The number of lines `m` matches. */
  function MatchCount<T>(page: seq<string>, m: string -> Option<T>): (n: nat)
    ensures n <= |page|
    decreases |page|
  {
    if page == [] then 0
    else MatchCount(page[..|page| - 1], m) + if m(page[|page| - 1]).Some? then 1 else 0
  }

  lemma {:induction false} CollectAppend<T>(a: seq<string>, b: seq<string>, m: string -> Option<T>)
    ensures Collect(a + b, m) == Collect(a, m) + Collect(b, m)
    decreases |b|
  {
    if b == [] {
      assert a + b == a;
    } else {
      var b' := b[..|b| - 1];
      assert (a + b)[..|a + b| - 1] == a + b';
      CollectAppend(a, b', m);
    }
  }

  /** One value per matching line: as many values as lines matched, hence
      never more than there are lines. */
  lemma {:induction false} CollectCount<T>(page: seq<string>, m: string -> Option<T>)
    ensures |Collect(page, m)| == MatchCount(page, m) <= |page|
    decreases |page|
  {
    if page != [] {
      CollectCount(page[..|page| - 1], m);
    }
  }

  /** Nothing is collected exactly when no line matches. */
  lemma {:induction false} CollectEmpty<T>(page: seq<string>, m: string -> Option<T>)
    ensures Collect(page, m) == [] <==> forall k :: 0 <= k < |page| ==> m(page[k]).None?
    decreases |page|
  {
    if page != [] {
      var init := page[..|page| - 1];
      CollectEmpty(init, m);
      assert forall k :: 0 <= k < |init| ==> init[k] == page[k];
    }
  }

  /** The value of matching line `k` comes right after the values of the lines before it. */
  lemma CollectAt<T>(page: seq<string>, m: string -> Option<T>, k: nat)
    requires k < |page| && m(page[k]).Some?
    ensures var pos := |Collect(page[..k], m)|;
      pos < |Collect(page, m)| && Collect(page, m)[pos] == m(page[k]).value
  {
    var front := page[..k + 1];
    assert front[..k] == page[..k];
    assert page == front + page[k + 1..];
    CollectAppend(front, page[k + 1..], m);
  }

  /** Every collected value is the value of some matching line. */
  lemma {:induction false} CollectFrom<T>(page: seq<string>, m: string -> Option<T>)
    ensures forall x :: x in Collect(page, m) ==> exists k :: 0 <= k < |page| && m(page[k]) == Some(x)
    decreases |page|
  {
    if page != [] {
      var init := page[..|page| - 1];
      CollectFrom(init, m);
      forall x | x in Collect(init, m) ensures exists k :: 0 <= k < |page| && m(page[k]) == Some(x) {
        var k :| 0 <= k < |init| && m(init[k]) == Some(x);
        assert page[k] == init[k];
      }
    }
  }

  /** The value of the last line `m` matches, if any. */
  function LastMatch<T>(page: seq<string>, m: string -> Option<T>): Option<T>
    decreases |page|
  {
    if page == [] then None
    else if m(page[|page| - 1]).Some? then m(page[|page| - 1])
    else LastMatch(page[..|page| - 1], m)
  }

  /** Line `k` decides when no later line matches, whatever the lines before it hold. */
  lemma {:induction false} LastMatchIs<T>(page: seq<string>, m: string -> Option<T>, k: nat)
    requires k < |page| && m(page[k]).Some?
    requires forall j :: k < j < |page| ==> m(page[j]).None?
    ensures LastMatch(page, m) == m(page[k])
    decreases |page|
  {
    if k < |page| - 1 {
      var init := page[..|page| - 1];
      assert forall j :: k < j < |init| ==> init[j] == page[j];
      LastMatchIs(init, m, k);
    }
  }

  /** There is a last match exactly when some line matches. */
  lemma {:induction false} LastMatchNone<T>(page: seq<string>, m: string -> Option<T>)
    ensures LastMatch(page, m).None? <==> forall k :: 0 <= k < |page| ==> m(page[k]).None?
    decreases |page|
  {
    if page != [] && m(page[|page| - 1]).None? {
      var init := page[..|page| - 1];
      LastMatchNone(init, m);
      assert forall k :: 0 <= k < |init| ==> init[k] == page[k];
    }
  }

  /** Line `k` matches, with the last match's value, and no later line matches. */
  ghost predicate LastMatchAt<T>(page: seq<string>, m: string -> Option<T>, k: int) {
    0 <= k < |page| && m(page[k]) == LastMatch(page, m) &&
    forall j :: k < j < |page| ==> m(page[j]).None?
  }

  /** A last match is the value of a matching line after which no line matches. */
  lemma {:induction false} LastMatchFrom<T>(page: seq<string>, m: string -> Option<T>)
    requires LastMatch(page, m).Some?
    ensures exists k :: LastMatchAt(page, m, k)
    decreases |page|
  {
    var last := |page| - 1;
    if m(page[last]).None? {
      var init := page[..last];
      LastMatchFrom(init, m);
      var k :| LastMatchAt(init, m, k);
      assert page[k] == init[k];
      assert LastMatch(page, m) == LastMatch(init, m);
      assert forall j :: k < j < |page| ==> m(page[j]).None? by {
        forall j | k < j < |page| ensures m(page[j]).None? {
          if j < last { assert page[j] == init[j]; }
        }
      }
      assert LastMatchAt(page, m, k);
    } else {
      LastMatchIs(page, m, last);
      assert LastMatchAt(page, m, last);
    }
  }
}
