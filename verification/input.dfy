/**
 `get_input` of src/predict.py: the terminals of a passage are sorted by
 `position` with Python's `sorted` (a stable sort) and each is projected to
 its `(pos, text)` pair, the token sequence handed to the parser.
 */
module Input {

  /** A terminal of the passage; `pos` is the part-of-speech tag kept in the terminal's `extra["pos"]`. */
  datatype Terminal = Terminal(position: int, pos: string, text: string)

  type Token = (string, string)

  predicate Sorted(s: seq<Terminal>) {
    forall i, j :: 0 <= i < j < |s| ==> s[i].position <= s[j].position
  }

  /** The terminals of `s` at position `p`, in their order in `s`. */
  function AtPosition(s: seq<Terminal>, p: int): seq<Terminal> {
    if s == [] then []
    else if s[0].position == p then [s[0]] + AtPosition(s[1..], p)
    else AtPosition(s[1..], p)
  }

  /** Stability: every position keeps its terminals in their original order. */
  ghost predicate SameOrderPerPosition(a: seq<Terminal>, b: seq<Terminal>) {
    forall p :: AtPosition(a, p) == AtPosition(b, p)
  }

  /** Places `t` before the first element at a position not smaller than its own. */
  function Insert(t: Terminal, s: seq<Terminal>): (r: seq<Terminal>)
    requires Sorted(s)
    ensures Sorted(r)
    ensures multiset(r) == multiset(s) + multiset{t}
    ensures |r| == |s| + 1
    ensures r[0] == t || (s != [] && r[0] == s[0])
  {
    if s == [] || t.position <= s[0].position then [t] + s
    else
      assert s == [s[0]] + s[1..];
      [s[0]] + Insert(t, s[1..])
  }

  /** The `sorted(..., key=lambda x: x.position)` call, as a stable insertion sort. */
  function SortByPosition(ts: seq<Terminal>): (r: seq<Terminal>)
    ensures Sorted(r)
    ensures multiset(r) == multiset(ts)
    ensures |r| == |ts|
  {
    if ts == [] then []
    else
      assert ts == [ts[0]] + ts[1..];
      Insert(ts[0], SortByPosition(ts[1..]))
  }

  function Project(ts: seq<Terminal>): (r: seq<Token>)
    ensures |r| == |ts|
    ensures forall i :: 0 <= i < |ts| ==> r[i] == (ts[i].pos, ts[i].text)
  {
    seq(|ts|, i requires 0 <= i < |ts| => (ts[i].pos, ts[i].text))
  }

  /** The token sequence: one `(pos, text)` pair per terminal, in position order. */
  function GetInput(ts: seq<Terminal>): (r: seq<Token>)
    ensures |r| == |ts|
    ensures exists s :: Sorted(s) && multiset(s) == multiset(ts) && SameOrderPerPosition(s, ts) && r == Project(s)
  {
    var s := SortByPosition(ts);
    SortByPositionStableEverywhere(ts);
    assert Sorted(s) && multiset(s) == multiset(ts) && SameOrderPerPosition(s, ts);
    Project(s)
  }

  lemma {:induction false} InsertKeepsOrderPerPosition(t: Terminal, s: seq<Terminal>, p: int)
    requires Sorted(s)
    ensures AtPosition(Insert(t, s), p) == (if t.position == p then [t] else []) + AtPosition(s, p)
    decreases |s|
  {
    if s == [] || t.position <= s[0].position {
      assert ([t] + s)[1..] == s;
    } else {
      var rest := Insert(t, s[1..]);
      assert ([s[0]] + rest)[1..] == rest;
      InsertKeepsOrderPerPosition(t, s[1..], p);
    }
  }

  /** The sort is stable: terminals sharing a position keep their input order. */
  lemma {:induction false} SortByPositionStable(ts: seq<Terminal>, p: int)
    ensures AtPosition(SortByPosition(ts), p) == AtPosition(ts, p)
    decreases |ts|
  {
    if ts != [] {
      SortByPositionStable(ts[1..], p);
      InsertKeepsOrderPerPosition(ts[0], SortByPosition(ts[1..]), p);
    }
  }

  lemma SortByPositionStableEverywhere(ts: seq<Terminal>)
    ensures SameOrderPerPosition(SortByPosition(ts), ts)
  {
    forall p
      ensures AtPosition(SortByPosition(ts), p) == AtPosition(ts, p)
    {
      SortByPositionStable(ts, p);
    }
  }

  lemma {:induction false} AtPositionMember(s: seq<Terminal>, p: int, t: Terminal)
    ensures t in AtPosition(s, p) <==> t in s && t.position == p
    decreases |s|
  {
    if s != [] {
      AtPositionMember(s[1..], p, t);
      assert s == [s[0]] + s[1..];
    }
  }

  /**
   A sorted sequence is fixed by what it holds at each position: two sorted
   sequences that agree position by position are equal.
   */
  lemma {:induction false} SortedUnique(a: seq<Terminal>, b: seq<Terminal>)
    requires Sorted(a) && Sorted(b)
    requires SameOrderPerPosition(a, b)
    ensures a == b
    decreases |a|
  {
    // A non-empty side holds something at its first position, so the other side does too.
    if a != [] {
      assert AtPosition(a, a[0].position) != [];
    }
    if b != [] {
      assert AtPosition(b, b[0].position) != [];
    }
    if a == [] || b == [] {
    } else {
      var pa, pb := a[0].position, b[0].position;
      AtPositionMember(a, pa, a[0]);
      assert AtPosition(a, pa) == AtPosition(b, pa);
      AtPositionMember(b, pa, a[0]);
      var k :| 0 <= k < |b| && b[k] == a[0];
      assert pb <= pa;
      AtPositionMember(b, pb, b[0]);
      assert AtPosition(a, pb) == AtPosition(b, pb);
      AtPositionMember(a, pb, b[0]);
      var l :| 0 <= l < |a| && a[l] == b[0];
      assert pa <= pb;
      assert AtPosition(a, pa) == [a[0]] + AtPosition(a[1..], pa);
      assert AtPosition(b, pa) == [b[0]] + AtPosition(b[1..], pa);
      assert AtPosition(a, pa)[0] == a[0] && AtPosition(b, pa)[0] == b[0];
      assert a[0] == b[0];
      forall p
        ensures AtPosition(a[1..], p) == AtPosition(b[1..], p)
      {
        assert AtPosition(a, p) == AtPosition(b, p);
        if p == pa {
          assert AtPosition(a[1..], p) == AtPosition(a, p)[1..];
          assert AtPosition(b[1..], p) == AtPosition(b, p)[1..];
        }
      }
      SortedUnique(a[1..], b[1..]);
      assert a == [a[0]] + a[1..] && b == [b[0]] + b[1..];
    }
  }

  /**
   Independent characterisation: whatever sorted rearrangement keeps the
   input order among equal positions, `GetInput` is its projection.
   */
  lemma GetInputCharacterised(ts: seq<Terminal>, s: seq<Terminal>)
    requires Sorted(s) && SameOrderPerPosition(s, ts)
    ensures GetInput(ts) == Project(s)
  {
    SortByPositionStableEverywhere(ts);
    SortedUnique(SortByPosition(ts), s);
  }

  /** The positions of a passage's terminals are `1..N` with no gap and no repeat. */
  predicate ContiguousPositions(ts: seq<Terminal>) {
    && (forall i :: 0 <= i < |ts| ==> 1 <= ts[i].position <= |ts|)
    && (forall i, j :: 0 <= i < j < |ts| ==> ts[i].position != ts[j].position)
  }

  lemma {:induction false} NoneAtPosition(s: seq<Terminal>, p: int)
    requires forall i :: 0 <= i < |s| ==> s[i].position != p
    ensures AtPosition(s, p) == []
    decreases |s|
  {
    if s != [] {
      NoneAtPosition(s[1..], p);
    }
  }

  lemma {:induction false} AtMostOneAtPosition(s: seq<Terminal>, p: int)
    requires forall i, j :: 0 <= i < j < |s| ==> s[i].position != s[j].position
    ensures |AtPosition(s, p)| <= 1
    decreases |s|
  {
    if s != [] {
      AtMostOneAtPosition(s[1..], p);
      if s[0].position == p {
        forall k | 0 <= k < |s[1..]|
          ensures s[1..][k].position != p
        {
          assert s[1..][k] == s[k + 1];
        }
        NoneAtPosition(s[1..], p);
      }
    }
  }

  lemma {:induction false} TwoAtPosition(s: seq<Terminal>, i: int, j: int)
    requires 0 <= i < j < |s| && s[i].position == s[j].position
    ensures |AtPosition(s, s[i].position)| >= 2
    decreases |s|
  {
    var p := s[i].position;
    if i > 0 {
      TwoAtPosition(s[1..], i - 1, j - 1);
    } else {
      AtPositionMember(s[1..], p, s[j]);
      assert s[1..][j - 1] == s[j];
    }
  }

  /** Strictly increasing positions drawn from `1..N`, `N` of them, are exactly `1..N` in order. */
  lemma {:induction false} IncreasingPositionsFill(r: seq<Terminal>)
    requires forall i, j :: 0 <= i < j < |r| ==> r[i].position < r[j].position
    requires forall i :: 0 <= i < |r| ==> 1 <= r[i].position <= |r|
    ensures forall i :: 0 <= i < |r| ==> r[i].position == i + 1
    decreases |r|
  {
    if r != [] {
      var last := |r| - 1;
      var front := r[..last];
      forall i | 0 <= i < |front|
        ensures 1 <= front[i].position <= |front|
      {
        assert r[i].position < r[last].position;
      }
      IncreasingPositionsFill(front);
      if last > 0 {
        assert r[last - 1] == front[last - 1];
        assert r[last - 1].position < r[last].position;
      }
      forall i | 0 <= i < |r|
        ensures r[i].position == i + 1
      {
        if i < last {
          assert r[i] == front[i];
        }
      }
    }
  }

  /**
   On a passage whose positions are `1..N`, the token at index `i` of the
   sorted order is the terminal at position `i + 1`.
   */
  lemma SortContiguous(ts: seq<Terminal>)
    requires ContiguousPositions(ts)
    ensures forall i :: 0 <= i < |ts| ==> SortByPosition(ts)[i].position == i + 1
  {
    var r := SortByPosition(ts);
    forall i | 0 <= i < |r|
      ensures 1 <= r[i].position <= |r|
    {
      assert r[i] in multiset(ts);
    }
    forall i, j | 0 <= i < j < |r|
      ensures r[i].position < r[j].position
    {
      if r[i].position == r[j].position {
        TwoAtPosition(r, i, j);
        SortByPositionStable(ts, r[i].position);
        AtMostOneAtPosition(ts, r[i].position);
      }
    }
    IncreasingPositionsFill(r);
  }
}
