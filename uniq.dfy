/**
 * The post-loop rule of index.js:157-158: `_.uniqBy(urls, 'threadId')`
 * keeps the first record of every thread in the order the records came,
 * and `.map(url => url.url)` keeps only the URL strings.
 *
 * The definition follows lodash's: walk the records once, remembering the
 * thread ids already seen, and keep a record when its thread is new.
 */
module Uniq {
  import opened Mail

  /** The thread ids that occur among the records. */
  function Threads(rs: seq<Record>): set<string> {
    if rs == [] then {} else {rs[0].threadId} + Threads(rs[1..])
  }

  /** No two records share a thread id. */
  ghost predicate DistinctThreads(rs: seq<Record>) {
    forall i, j :: 0 <= i < j < |rs| ==> rs[i].threadId != rs[j].threadId
  }

  /** The first record of thread t. */
  function FirstOf(rs: seq<Record>, t: string): Record
    requires t in Threads(rs)
  {
    if rs[0].threadId == t then rs[0] else FirstOf(rs[1..], t)
  }

  /** a is b with some elements left out, the rest in their order. */
  ghost predicate IsSubsequence<T>(a: seq<T>, b: seq<T>)
    decreases |b|
  {
    if a == [] then true
    else if b == [] then false
    else (a[0] == b[0] && IsSubsequence(a[1..], b[1..])) || IsSubsequence(a, b[1..])
  }

  /** No record before record k has its thread. */
  ghost predicate IsFirst(rs: seq<Record>, k: nat)
    requires k < |rs|
  {
    forall j :: 0 <= j < k ==> rs[j].threadId != rs[k].threadId
  }

  /** Among the first n records, those that come first in their thread, in
      index order. */
  ghost function FirstsTo(rs: seq<Record>, n: nat): seq<Record>
    requires n <= |rs|
  {
    if n == 0 then []
    else FirstsTo(rs, n - 1) + (if IsFirst(rs, n - 1) then [rs[n - 1]] else [])
  }

  /** The records that come first in their thread, in index order. */
  ghost function Firsts(rs: seq<Record>): seq<Record> {
    FirstsTo(rs, |rs|)
  }

  /** lodash's walk, with the thread ids seen so far. */
  function UniqueFrom(rs: seq<Record>, seen: set<string>): seq<Record> {
    if rs == [] then []
    else if rs[0].threadId in seen then UniqueFrom(rs[1..], seen)
    else [rs[0]] + UniqueFrom(rs[1..], seen + {rs[0].threadId})
  }

  /** `_.uniqBy(rs, 'threadId')`. */
  function UniqBy(rs: seq<Record>): (r: seq<Record>)
    ensures DistinctThreads(r)
    ensures Threads(r) == Threads(rs)
    ensures forall k :: 0 <= k < |r| ==> r[k].threadId in Threads(rs) && r[k] == FirstOf(rs, r[k].threadId)
    ensures IsSubsequence(r, rs)
    ensures |r| == |Threads(rs)| <= |rs|
    ensures r == Firsts(rs)
  {
    UniqueFromFirstsTo(rs, |rs|);
    assert rs[|rs|..] == [];
    UniqueFromThreads(rs, {});
    UniqueFromDistinct(rs, {});
    UniqueFromFirsts(rs, {});
    UniqueFromSubsequence(rs, {});
    var r := UniqueFrom(rs, {});
    DistinctCount(r);
    SubsequenceLength(r, rs);
    r
  }

  /** `.map(url => url.url)`: the URL of every record, in the same order. */
  function Urls(rs: seq<Record>): (r: seq<string>)
    ensures |r| == |rs|
    ensures forall k :: 0 <= k < |rs| ==> r[k] == rs[k].url
  {
    if rs == [] then [] else [rs[0].url] + Urls(rs[1..])
  }

  lemma {:induction false} InThreads(rs: seq<Record>, k: nat)
    requires k < |rs|
    ensures rs[k].threadId in Threads(rs)
  {
    if k > 0 {
      InThreads(rs[1..], k - 1);
    }
  }

  /** The walk keeps exactly the threads not seen before it started. */
  lemma {:induction false} UniqueFromThreads(rs: seq<Record>, seen: set<string>)
    ensures Threads(UniqueFrom(rs, seen)) == Threads(rs) - seen
  {
    if rs != [] {
      if rs[0].threadId in seen {
        UniqueFromThreads(rs[1..], seen);
      } else {
        UniqueFromThreads(rs[1..], seen + {rs[0].threadId});
        var rest := UniqueFrom(rs[1..], seen + {rs[0].threadId});
        assert ([rs[0]] + rest)[1..] == rest;
      }
    }
  }

  /** The walk never keeps two records of one thread. */
  lemma {:induction false} UniqueFromDistinct(rs: seq<Record>, seen: set<string>)
    ensures DistinctThreads(UniqueFrom(rs, seen))
  {
    if rs != [] {
      if rs[0].threadId in seen {
        UniqueFromDistinct(rs[1..], seen);
      } else {
        var t := rs[0].threadId;
        var rest := UniqueFrom(rs[1..], seen + {t});
        UniqueFromDistinct(rs[1..], seen + {t});
        UniqueFromThreads(rs[1..], seen + {t});
        forall j | 0 <= j < |rest| ensures rest[j].threadId != t {
          InThreads(rest, j);
        }
        var r := [rs[0]] + rest;
        forall i, j | 0 <= i < j < |r| ensures r[i].threadId != r[j].threadId {
          assert r[j] == rest[j - 1];
          if i > 0 { assert r[i] == rest[i - 1]; }
        }
      }
    }
  }

  /** Every kept record is the first record of its thread. */
  lemma {:induction false} UniqueFromFirsts(rs: seq<Record>, seen: set<string>)
    ensures forall k :: 0 <= k < |UniqueFrom(rs, seen)| ==>
      UniqueFrom(rs, seen)[k].threadId in Threads(rs) &&
      UniqueFrom(rs, seen)[k] == FirstOf(rs, UniqueFrom(rs, seen)[k].threadId)
  {
    if rs != [] {
      var t := rs[0].threadId;
      var seen' := if t in seen then seen else seen + {t};
      var rest := UniqueFrom(rs[1..], seen');
      UniqueFromFirsts(rs[1..], seen');
      UniqueFromThreads(rs[1..], seen');
      var r := UniqueFrom(rs, seen);
      forall k | 0 <= k < |r|
        ensures r[k].threadId in Threads(rs) && r[k] == FirstOf(rs, r[k].threadId)
      {
        if t !in seen && k == 0 {
          assert r[0] == rs[0];
        } else {
          var k' := if t in seen then k else k - 1;
          assert r[k] == rest[k'];
          InThreads(rest, k');
        }
      }
    }
  }

  /** The kept records appear in the order they came. */
  lemma {:induction false} UniqueFromSubsequence(rs: seq<Record>, seen: set<string>)
    ensures IsSubsequence(UniqueFrom(rs, seen), rs)
  {
    if rs != [] {
      var t := rs[0].threadId;
      if t in seen {
        UniqueFromSubsequence(rs[1..], seen);
        SubsequenceOfTail(UniqueFrom(rs[1..], seen), rs);
      } else {
        var rest := UniqueFrom(rs[1..], seen + {t});
        UniqueFromSubsequence(rs[1..], seen + {t});
        assert ([rs[0]] + rest)[1..] == rest;
      }
    }
  }

  /** The thread ids of two lists one after the other. */
  lemma {:induction false} ThreadsConcat(a: seq<Record>, b: seq<Record>)
    ensures Threads(a + b) == Threads(a) + Threads(b)
  {
    if a == [] {
      assert a + b == b;
    } else {
      assert (a + b)[0] == a[0];
      assert (a + b)[1..] == a[1..] + b;
      ThreadsConcat(a[1..], b);
    }
  }

  /** Record k is first in its thread exactly when its thread is not among
      those of the records before it. */
  lemma FirstMeansNew(rs: seq<Record>, k: nat)
    requires k < |rs|
    ensures IsFirst(rs, k) <==> rs[k].threadId !in Threads(rs[..k])
  {
    if rs[k].threadId in Threads(rs[..k]) {
      var j := ThreadIndex(rs[..k], rs[k].threadId);
      assert rs[j] == rs[..k][j];
    } else {
      forall j | 0 <= j < k ensures rs[j].threadId != rs[k].threadId {
        InThreads(rs[..k], j);
        assert rs[..k][j] == rs[j];
      }
    }
  }

  /** After the walk has passed the first n records, it has kept exactly
      their firsts, and goes on with their threads seen. */
  lemma {:induction false} UniqueFromFirstsTo(rs: seq<Record>, n: nat)
    requires n <= |rs|
    ensures UniqueFrom(rs, {}) == FirstsTo(rs, n) + UniqueFrom(rs[n..], Threads(rs[..n]))
  {
    if n == 0 {
      assert rs[0..] == rs;
      assert rs[..0] == [];
    } else {
      var m := n - 1;
      UniqueFromFirstsTo(rs, m);
      var seen := Threads(rs[..m]);
      var t := rs[m].threadId;
      assert rs[m..][0] == rs[m];
      assert rs[m..][1..] == rs[n..];
      assert rs[..n] == rs[..m] + [rs[m]];
      ThreadsConcat(rs[..m], [rs[m]]);
      assert Threads([rs[m]]) == {t};
      FirstMeansNew(rs, m);
      if t in seen {
        assert seen + {t} == seen;
      } else {
        Assoc(FirstsTo(rs, m), [rs[m]], UniqueFrom(rs[n..], seen + {t}));
      }
    }
  }

  /** Concatenation regroups; a helper for the walk's proof and for the
      loop invariants of Harvest. */
  lemma Assoc<T>(a: seq<T>, b: seq<T>, c: seq<T>)
    ensures (a + b) + c == a + (b + c)
  {
  }

  /** A subsequence of the tail is a subsequence of the whole. */
  lemma {:induction false} SubsequenceOfTail<T>(a: seq<T>, b: seq<T>)
    requires b != []
    requires IsSubsequence(a, b[1..])
    ensures IsSubsequence(a, b)
  {
  }

  lemma {:induction false} SubsequenceLength<T>(a: seq<T>, b: seq<T>)
    requires IsSubsequence(a, b)
    ensures |a| <= |b|
    decreases |b|
  {
    if a != [] {
      if a[0] == b[0] && IsSubsequence(a[1..], b[1..]) {
        SubsequenceLength(a[1..], b[1..]);
      } else {
        SubsequenceLength(a, b[1..]);
      }
    }
  }

  /** Without repeated threads there are as many threads as records. */
  lemma {:induction false} DistinctCount(rs: seq<Record>)
    requires DistinctThreads(rs)
    ensures |Threads(rs)| == |rs|
  {
    if rs != [] {
      var rest := rs[1..];
      assert DistinctThreads(rest) by {
        forall i, j | 0 <= i < j < |rest| ensures rest[i].threadId != rest[j].threadId {
          assert rest[i] == rs[i + 1] && rest[j] == rs[j + 1];
        }
      }
      DistinctCount(rest);
      if rs[0].threadId in Threads(rest) {
        var k := ThreadIndex(rest, rs[0].threadId);
        assert false;
      }
    }
  }

  /** Where in rs thread t first occurs. */
  lemma {:induction false} ThreadIndex(rs: seq<Record>, t: string) returns (k: nat)
    requires t in Threads(rs)
    ensures k < |rs| && rs[k].threadId == t
  {
    if rs[0].threadId == t {
      k := 0;
    } else {
      k := ThreadIndex(rs[1..], t);
      k := k + 1;
    }
  }

  /** Records without repeated threads pass through the walk unchanged. */
  lemma {:induction false} UniqueFromDistinctUnchanged(rs: seq<Record>, seen: set<string>)
    requires DistinctThreads(rs)
    requires Threads(rs) * seen == {}
    ensures UniqueFrom(rs, seen) == rs
  {
    if rs != [] {
      var t := rs[0].threadId;
      var rest := rs[1..];
      assert t in Threads(rs);
      assert DistinctThreads(rest) by {
        forall i, j | 0 <= i < j < |rest| ensures rest[i].threadId != rest[j].threadId {
          assert rest[i] == rs[i + 1] && rest[j] == rs[j + 1];
        }
      }
      if t in Threads(rest) {
        var k := ThreadIndex(rest, t);
        assert false;
      }
      UniqueFromDistinctUnchanged(rest, seen + {t});
    }
  }

  /** Deduplicating twice is deduplicating once. */
  lemma UniqByIdempotent(rs: seq<Record>)
    ensures UniqBy(UniqBy(rs)) == UniqBy(rs)
  {
    UniqueFromDistinctUnchanged(UniqBy(rs), {});
  }

  /**
   * Two records of one thread: only the earlier survives, whatever the
   * URLs, and the later record is dropped.
   */
  lemma {:induction false} UniqByKeepsEarlier(rs: seq<Record>, i: nat, j: nat)
    requires i < j < |rs| && rs[i].threadId == rs[j].threadId
    requires forall k :: 0 <= k < i ==> rs[k].threadId != rs[i].threadId
    ensures rs[i] in UniqBy(rs)
    ensures forall x :: x in UniqBy(rs) && x.threadId == rs[i].threadId ==> x == rs[i]
  {
    var r := UniqBy(rs);
    var t := rs[i].threadId;
    InThreads(rs, i);
    FirstIsAt(rs, i);
    var k := ThreadIndex(r, t);
    assert r[k] == rs[i];
  }

  /** The first record of each thread is kept, and so is its URL. */
  lemma FirstKept(rs: seq<Record>, i: nat)
    requires i < |rs|
    requires forall k :: 0 <= k < i ==> rs[k].threadId != rs[i].threadId
    ensures rs[i] in UniqBy(rs) && rs[i].url in Urls(UniqBy(rs))
  {
    var r := UniqBy(rs);
    FirstIsAt(rs, i);
    var k := ThreadIndex(r, rs[i].threadId);
    assert r[k] == rs[i];
    assert Urls(r)[k] == rs[i].url;
  }

  /** FirstOf finds the record at the first index of its thread. */
  lemma {:induction false} FirstIsAt(rs: seq<Record>, i: nat)
    requires i < |rs|
    requires forall k :: 0 <= k < i ==> rs[k].threadId != rs[i].threadId
    ensures rs[i].threadId in Threads(rs) && FirstOf(rs, rs[i].threadId) == rs[i]
  {
    InThreads(rs, i);
    if i > 0 {
      FirstIsAt(rs[1..], i - 1);
    }
  }
}
