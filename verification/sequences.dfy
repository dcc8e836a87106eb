/** Subsequences and concatenations: the vocabulary of the run theorems. */
module Sequences {

  datatype Option<+T> = None | Some(value: T)

  ghost function Init<T>(s: seq<T>): seq<T>
    requires s != []
  {
    s[..|s| - 1]
  }

  ghost function Last<T>(s: seq<T>): T
    requires s != []
  {
    s[|s| - 1]
  }

  /** a is b with some elements left out. */
  ghost predicate Subsequence<T>(a: seq<T>, b: seq<T>)
    decreases |b|
  {
    || a == []
    || (b != [] && Subsequence(a, Init(b)))
    || (a != [] && b != [] && Last(a) == Last(b) && Subsequence(Init(a), Init(b)))
  }

  /** f picks, in order, the places of b at which the elements of a stand. */
  ghost predicate Embedding<T>(f: seq<nat>, a: seq<T>, b: seq<T>) {
    && |f| == |a|
    && (forall i :: 0 <= i < |f| ==> f[i] < |b| && a[i] == b[f[i]])
    && (forall i, j :: 0 <= i < j < |f| ==> f[i] < f[j])
  }

  lemma {:induction false} SubsequenceEmbeds<T>(a: seq<T>, b: seq<T>) returns (f: seq<nat>)
    requires Subsequence(a, b)
    ensures Embedding(f, a, b)
    decreases |b|
  {
    if a == [] {
      f := [];
    } else if Subsequence(a, Init(b)) {
      f := SubsequenceEmbeds(a, Init(b));
    } else {
      f := SubsequenceEmbeds(Init(a), Init(b));
      f := f + [|b| - 1];
    }
  }

  lemma {:induction false} EmbeddingIsSubsequence<T>(f: seq<nat>, a: seq<T>, b: seq<T>)
    requires Embedding(f, a, b)
    ensures Subsequence(a, b)
    decreases |b|
  {
    if a != [] {
      assert f[|f| - 1] < |b|;
      if Last(f) == |b| - 1 {
        EmbeddingIsSubsequence(Init(f), Init(a), Init(b));
      } else {
        forall i | 0 <= i < |f| ensures f[i] < |Init(b)| && a[i] == Init(b)[f[i]] {
          assert i < |f| - 1 ==> f[i] < f[|f| - 1];
        }
        EmbeddingIsSubsequence(f, a, Init(b));
      }
    }
  }

  /** The recursive reading and the order-preserving embedding are the same notion. */
  lemma SubsequenceIffEmbedding<T>(a: seq<T>, b: seq<T>)
    ensures Subsequence(a, b) <==> exists f :: Embedding(f, a, b)
  {
    if Subsequence(a, b) {
      var f := SubsequenceEmbeds(a, b);
    }
    if f :| Embedding(f, a, b) {
      EmbeddingIsSubsequence(f, a, b);
    }
  }

  lemma {:induction false} SubsequenceRefl<T>(a: seq<T>)
    ensures Subsequence(a, a)
    decreases |a|
  {
    if a != [] {
      SubsequenceRefl(Init(a));
    }
  }

  lemma SubsequenceSnoc<T>(a: seq<T>, b: seq<T>, x: T)
    requires Subsequence(a, b)
    ensures Subsequence(a + [x], b + [x])
    ensures Subsequence(a, b + [x])
  {
    assert Init(a + [x]) == a && Init(b + [x]) == b;
  }

  lemma {:induction false} SubsequenceTrans<T>(a: seq<T>, b: seq<T>, c: seq<T>)
    requires Subsequence(a, b) && Subsequence(b, c)
    ensures Subsequence(a, c)
    decreases |b| + |c|
  {
    if a != [] {
      if Subsequence(b, Init(c)) {
        SubsequenceTrans(a, b, Init(c));
      } else if Subsequence(a, Init(b)) {
        SubsequenceTrans(a, Init(b), Init(c));
      } else {
        SubsequenceTrans(Init(a), Init(b), Init(c));
      }
    }
  }

  /** Leaving out a middle part gives a subsequence. */
  lemma {:induction false} SubsequenceOmit<T>(a: seq<T>, m: seq<T>, c: seq<T>)
    ensures Subsequence(a + c, a + m + c)
    decreases |m| + |c|
  {
    if c != [] {
      SubsequenceOmit(a, m, Init(c));
      assert a + c == a + Init(c) + [Last(c)];
      assert a + m + c == a + m + Init(c) + [Last(c)];
      SubsequenceSnoc(a + Init(c), a + m + Init(c), Last(c));
    } else if m != [] {
      SubsequenceOmit(a, Init(m), c);
      assert a + m + c == a + Init(m) + c + [Last(m)];
      SubsequenceSnoc(a + c, a + Init(m) + c, Last(m));
    } else {
      assert a + m + c == a + c;
      SubsequenceRefl(a + c);
    }
  }

  /** A subsequence of full length leaves nothing out. */
  lemma {:induction false} SubsequenceLength<T>(a: seq<T>, b: seq<T>)
    requires Subsequence(a, b)
    ensures |a| <= |b|
    ensures |a| == |b| ==> a == b
    decreases |b|
  {
    if a != [] {
      if Subsequence(a, Init(b)) {
        SubsequenceLength(a, Init(b));
      } else {
        SubsequenceLength(Init(a), Init(b));
        assert a == Init(a) + [Last(a)] && b == Init(b) + [Last(b)];
      }
    }
  }
}
