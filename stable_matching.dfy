/**
  * StableMatching.cpp: the Gale–Shapley proposal loop between n people and
  * n pets. Free people wait in a queue; the one at its front proposes to the
  * next pet of their own preference queue, and the pet keeps whichever of
  * its current person and the proposer it ranks better. The loop fails as
  * soon as a free person has no pet left to propose to.
  *
  * The invariant `Proposing` is stated over values: `prefs` are the people's
  * preference queues as loaded, `ranks` the pets' rank rows, `left` what is
  * left of each queue, `matchedPet` and `matchedPeople` the two match arrays
  * and `queue` the free people. Pets and people are 0-based indices; the
  * queues name pets 1..n, as the input file does.
  */
module StableMatching {
  import opened Sequences
  import opened PeopleGroup
  import opened PetGroup

  /**
    * Every person names pets 1..n, every pet ranks persons 0..n-1, the arrays
    * have n entries, and every match entry is -1 or an index.
    */
  ghost predicate Sizes(prefs: seq<seq<int>>, ranks: seq<seq<int>>, n: int, left: seq<seq<int>>,
                        matchedPet: seq<int>, matchedPeople: seq<int>)
  {
    n >= 0 && |prefs| == n && |ranks| == n && |left| == n && |matchedPet| == n && |matchedPeople| == n
    && (forall p :: 0 <= p < n ==> InRange(prefs[p], n) && InRange(left[p], n))
    && (forall q :: 0 <= q < n ==> |ranks[q]| == n)
    && (forall p :: 0 <= p < n ==> -1 <= matchedPet[p] < n)
    && (forall q :: 0 <= q < n ==> -1 <= matchedPeople[q] < n)
  }

  /** Pet q is matched, with a person it ranks no worse than p. */
  ghost predicate Courted(ranks: seq<seq<int>>, matchedPeople: seq<int>, q: int, p: int)
  {
    0 <= q < |matchedPeople| && q < |ranks| && 0 <= matchedPeople[q] < |ranks[q]| && 0 <= p < |ranks[q]|
    && ranks[q][matchedPeople[q]] <= ranks[q][p]
  }

  /**
    * Person p: the queue left is what follows the pets proposed to so far;
    * every pet p proposed to is matched with someone it ranks no worse than
    * p; a matched p holds the pet of their latest proposal, and that pet
    * holds p.
    */
  ghost predicate PersonOk(prefs: seq<seq<int>>, ranks: seq<seq<int>>, left: seq<seq<int>>,
                           matchedPet: seq<int>, matchedPeople: seq<int>, p: int)
  {
    0 <= p < |prefs| && p < |left| && p < |matchedPet| ==>
      var proposed := |prefs[p]| - |left[p]|;
      0 <= proposed && left[p] == prefs[p][proposed..]
      && (forall j :: 0 <= j < proposed ==> Courted(ranks, matchedPeople, prefs[p][j] - 1, p))
      && (matchedPet[p] != -1 ==>
            proposed >= 1 && matchedPet[p] == prefs[p][proposed - 1] - 1
            && 0 <= matchedPet[p] < |matchedPeople| && matchedPeople[matchedPet[p]] == p)
  }

  /** A matched pet q is the pet of its person. */
  ghost predicate PetOk(matchedPet: seq<int>, matchedPeople: seq<int>, q: int)
  {
    0 <= q < |matchedPeople| && matchedPeople[q] != -1 ==>
      0 <= matchedPeople[q] < |matchedPet| && matchedPet[matchedPeople[q]] == q
  }

  /** The queue holds each unmatched person once, and nobody else. */
  ghost predicate QueueOk(queue: seq<int>, matchedPet: seq<int>)
  {
    Distinct(queue)
    && (forall i :: 0 <= i < |queue| ==> 0 <= queue[i] < |matchedPet| && matchedPet[queue[i]] == -1)
    && (forall p :: 0 <= p < |matchedPet| && matchedPet[p] == -1 ==> p in queue)
  }

  /** The invariant of the proposal loop. */
  ghost predicate Proposing(prefs: seq<seq<int>>, ranks: seq<seq<int>>, n: int, left: seq<seq<int>>,
                            matchedPet: seq<int>, matchedPeople: seq<int>, queue: seq<int>)
  {
    Sizes(prefs, ranks, n, left, matchedPet, matchedPeople)
    && (forall p :: PersonOk(prefs, ranks, left, matchedPet, matchedPeople, p))
    && (forall q :: PetOk(matchedPet, matchedPeople, q))
    && QueueOk(queue, matchedPet)
  }

  // ---------------------------------------------------------------------
  // What the loop promises.

  /** matchedPet[p] == q exactly when matchedPeople[q] == p. */
  ghost predicate Inverse(matchedPet: seq<int>, matchedPeople: seq<int>, n: int)
  {
    |matchedPet| == n && |matchedPeople| == n
    && forall p, q :: 0 <= p < n && 0 <= q < n ==> (matchedPet[p] == q <==> matchedPeople[q] == p)
  }

  /** The person with queue `pref` ranks pet q above pet r: q is listed before the first entry naming r. */
  ghost predicate PersonPrefers(pref: seq<int>, q: int, r: int)
  {
    q + 1 in pref && Find(pref, q + 1) < Find(pref, r + 1)
  }

  /**
    * Stability: whenever a person prefers a pet to their own, that pet is
    * matched with a person it ranks no worse, so the two do not both prefer
    * each other to their partners.
    */
  ghost predicate NoBlockingPair(prefs: seq<seq<int>>, ranks: seq<seq<int>>, matchedPet: seq<int>,
                                 matchedPeople: seq<int>, n: int)
  {
    |prefs| == n && |matchedPet| == n
    && forall p, q :: 0 <= p < n && 0 <= q < n && PersonPrefers(prefs[p], q, matchedPet[p]) ==>
         Courted(ranks, matchedPeople, q, p)
  }

  /** Every person lists every pet, as a preference list that is a permutation of 1..n does. */
  ghost predicate AllListed(prefs: seq<seq<int>>, n: int)
  {
    |prefs| == n && forall p, x :: 0 <= p < n && 1 <= x <= n ==> x in prefs[p]
  }

  /** A matched pet stays matched, and when its person changes the new one is ranked strictly better. */
  ghost predicate PetsImprove(ranks: seq<seq<int>>, matchedPeople: seq<int>, matchedPeople': seq<int>)
  {
    |matchedPeople'| == |matchedPeople|
    && forall q :: 0 <= q < |matchedPeople| && matchedPeople[q] != -1 ==>
         matchedPeople'[q] != -1
         && (matchedPeople'[q] != matchedPeople[q] ==>
               q < |ranks| && 0 <= matchedPeople'[q] < |ranks[q]| && 0 <= matchedPeople[q] < |ranks[q]|
               && ranks[q][matchedPeople'[q]] < ranks[q][matchedPeople[q]])
  }

  // ---------------------------------------------------------------------
  // The invariant at the start, across each branch of a proposal, and at
  // the end.

  /** Before the first proposal: nobody matched, nothing proposed, everybody queued in order. */
  lemma InitialProposing(prefs: seq<seq<int>>, ranks: seq<seq<int>>, n: nat)
    requires Sizes(prefs, ranks, n, prefs, seq(n, _ => -1), seq(n, _ => -1))
    ensures Proposing(prefs, ranks, n, prefs, seq(n, _ => -1), seq(n, _ => -1), seq(n, k => k))
  {
    var queue, none := seq(n, k => k), seq(n, _ => -1);
    forall p | 0 <= p < n ensures p in queue {
      assert queue[p] == p;
    }
    forall p ensures PersonOk(prefs, ranks, prefs, none, none, p) {
      if 0 <= p < n {
        assert prefs[p][0..] == prefs[p];
      }
    }
  }

  /** The invariant gives the two arrays as mutual inverses. */
  lemma ProposingInverse(prefs: seq<seq<int>>, ranks: seq<seq<int>>, n: int, left: seq<seq<int>>,
                         matchedPet: seq<int>, matchedPeople: seq<int>, queue: seq<int>)
    requires Proposing(prefs, ranks, n, left, matchedPet, matchedPeople, queue)
    ensures Inverse(matchedPet, matchedPeople, n)
  {
    forall p, q | 0 <= p < n && 0 <= q < n ensures matchedPet[p] == q <==> matchedPeople[q] == p {
      assert PersonOk(prefs, ranks, left, matchedPet, matchedPeople, p);
      assert PetOk(matchedPet, matchedPeople, q);
    }
  }

  /**
    * With the queue empty, everybody is matched, the arrays are mutual
    * inverses, and no person and pet prefer each other to their partners.
    */
  lemma ProposingStable(prefs: seq<seq<int>>, ranks: seq<seq<int>>, n: int, left: seq<seq<int>>,
                        matchedPet: seq<int>, matchedPeople: seq<int>)
    requires Proposing(prefs, ranks, n, left, matchedPet, matchedPeople, [])
    ensures forall p :: 0 <= p < n ==> 0 <= matchedPet[p] < n
    ensures Inverse(matchedPet, matchedPeople, n)
    ensures NoBlockingPair(prefs, ranks, matchedPet, matchedPeople, n)
  {
    ProposingInverse(prefs, ranks, n, left, matchedPet, matchedPeople, []);
    forall p | 0 <= p < n ensures 0 <= matchedPet[p] < n {
      assert PersonOk(prefs, ranks, left, matchedPet, matchedPeople, p);
    }
    forall p, q | 0 <= p < n && 0 <= q < n && PersonPrefers(prefs[p], q, matchedPet[p])
      ensures Courted(ranks, matchedPeople, q, p)
    {
      assert PersonOk(prefs, ranks, left, matchedPet, matchedPeople, p);
      var proposed := |prefs[p]| - |left[p]|;
      assert prefs[p][proposed - 1] == matchedPet[p] + 1;
      var j := Find(prefs[p], q + 1);
      assert j < proposed - 1;
      assert prefs[p][j] - 1 == q;
    }
  }

  /**
    * A person who has proposed to every pet leaves no pet free, and then,
    * there being as many pets as people, nobody free either.
    */
  lemma ExhaustedAllMatched(prefs: seq<seq<int>>, ranks: seq<seq<int>>, n: int, left: seq<seq<int>>,
                            matchedPet: seq<int>, matchedPeople: seq<int>, queue: seq<int>, p: int)
    requires Proposing(prefs, ranks, n, left, matchedPet, matchedPeople, queue)
    requires AllListed(prefs, n) && 0 <= p < n && left[p] == []
    ensures forall r :: 0 <= r < n ==> matchedPet[r] != -1
  {
    assert PersonOk(prefs, ranks, left, matchedPet, matchedPeople, p);
    forall x | 0 <= x < n ensures 0 <= matchedPeople[x] < n {
      assert x + 1 in prefs[p];
      var j :| 0 <= j < |prefs[p]| && prefs[p][j] == x + 1;
      assert Courted(ranks, matchedPeople, prefs[p][j] - 1, p);
    }
    forall x, y | 0 <= x < y < |matchedPeople| ensures matchedPeople[x] != matchedPeople[y] {
      assert PetOk(matchedPet, matchedPeople, x);
      assert PetOk(matchedPet, matchedPeople, y);
    }
    DistinctBelowCovers(matchedPeople, n);
    forall r | 0 <= r < n ensures matchedPet[r] != -1 {
      assert r in matchedPeople;
      var x :| 0 <= x < |matchedPeople| && matchedPeople[x] == r;
      assert PetOk(matchedPet, matchedPeople, x);
    }
  }

  /** A pet that holds someone it ranks no worse than p still does once its person only improves. */
  lemma CourtedImproves(ranks: seq<seq<int>>, matchedPeople: seq<int>, matchedPeople': seq<int>, q: int, p: int)
    requires Courted(ranks, matchedPeople, q, p) && PetsImprove(ranks, matchedPeople, matchedPeople')
    ensures Courted(ranks, matchedPeople', q, p)
  {
  }

  /**
    * A person who does not propose keeps their part of the invariant when
    * their queue stays, pets only improve, and they either keep their pet
    * (which still holds them) or are freed.
    */
  lemma PersonKeeps(prefs: seq<seq<int>>, ranks: seq<seq<int>>, left: seq<seq<int>>, matchedPet: seq<int>,
                    matchedPeople: seq<int>, left': seq<seq<int>>, matchedPet': seq<int>, matchedPeople': seq<int>, r: int)
    requires 0 <= r < |prefs| && r < |left| && r < |left'| && r < |matchedPet| && r < |matchedPet'|
    requires PersonOk(prefs, ranks, left, matchedPet, matchedPeople, r)
    requires left'[r] == left[r] && PetsImprove(ranks, matchedPeople, matchedPeople')
    requires matchedPet'[r] != -1 ==>
      matchedPet'[r] == matchedPet[r] && 0 <= matchedPet'[r] < |matchedPeople'| && matchedPeople'[matchedPet'[r]] == r
    ensures PersonOk(prefs, ranks, left', matchedPet', matchedPeople', r)
  {
    var proposed := |prefs[r]| - |left[r]|;
    forall j | 0 <= j < proposed ensures Courted(ranks, matchedPeople', prefs[r][j] - 1, r) {
      CourtedImproves(ranks, matchedPeople, matchedPeople', prefs[r][j] - 1, r);
    }
  }

  /**
    * The free person p who proposes to pet q, the front of their queue, keeps
    * their part of the invariant when the queue is popped, pets only
    * improve, q ends up courted, and p either stays free or holds q.
    */
  lemma ProposerKeeps(prefs: seq<seq<int>>, ranks: seq<seq<int>>, left: seq<seq<int>>, matchedPet: seq<int>,
                      matchedPeople: seq<int>, left': seq<seq<int>>, matchedPet': seq<int>, matchedPeople': seq<int>,
                      p: int, q: int)
    requires 0 <= p < |prefs| && p < |left| && p < |left'| && p < |matchedPet| && p < |matchedPet'|
    requires PersonOk(prefs, ranks, left, matchedPet, matchedPeople, p) && matchedPet[p] == -1
    requires left[p] != [] && q == left[p][0] - 1 && left'[p] == left[p][1..]
    requires PetsImprove(ranks, matchedPeople, matchedPeople') && Courted(ranks, matchedPeople', q, p)
    requires matchedPet'[p] != -1 ==> matchedPet'[p] == q && 0 <= q < |matchedPeople'| && matchedPeople'[q] == p
    ensures PersonOk(prefs, ranks, left', matchedPet', matchedPeople', p)
  {
    var proposed := |prefs[p]| - |left[p]|;
    assert prefs[p][proposed] == q + 1;
    assert left'[p] == prefs[p][proposed + 1..];
    forall j | 0 <= j < proposed + 1 ensures Courted(ranks, matchedPeople', prefs[p][j] - 1, p) {
      if j < proposed {
        CourtedImproves(ranks, matchedPeople, matchedPeople', prefs[p][j] - 1, p);
      }
    }
  }

  /** The queue after its front is popped: every other free person was already queued behind the front. */
  lemma PopKeeps(queue: seq<int>, matchedPet: seq<int>, matchedPet': seq<int>)
    requires QueueOk(queue, matchedPet) && queue != [] && |matchedPet'| == |matchedPet|
    requires forall i :: 1 <= i < |queue| ==> matchedPet'[queue[i]] == -1
    requires forall r :: 0 <= r < |matchedPet'| && matchedPet'[r] == -1 ==> matchedPet[r] == -1 && r != queue[0]
    ensures QueueOk(queue[1..], matchedPet')
  {
    forall r | 0 <= r < |matchedPet'| && matchedPet'[r] == -1 ensures r in queue[1..] {
      var i :| 0 <= i < |queue| && queue[i] == r;
      assert queue[1..][i - 1] == r;
    }
  }

  /**
    * The queue after its front is popped and x, now free, is queued at the
    * back: every other free person was already queued behind the front.
    */
  lemma RequeueKeeps(queue: seq<int>, matchedPet: seq<int>, matchedPet': seq<int>, x: int)
    requires QueueOk(queue, matchedPet) && queue != [] && |matchedPet'| == |matchedPet|
    requires 0 <= x < |matchedPet'| && matchedPet'[x] == -1
    requires forall i :: 1 <= i < |queue| ==> matchedPet'[queue[i]] == -1 && queue[i] != x
    requires forall r :: 0 <= r < |matchedPet'| && matchedPet'[r] == -1 && r != x ==> matchedPet[r] == -1 && r != queue[0]
    ensures QueueOk(queue[1..] + [x], matchedPet')
  {
    var queue' := queue[1..] + [x];
    forall i, j | 0 <= i < j < |queue'| ensures queue'[i] != queue'[j] {
      if j < |queue'| - 1 {
        assert queue'[i] == queue[i + 1] && queue'[j] == queue[j + 1];
      } else {
        assert queue'[i] == queue[i + 1];
      }
    }
    forall i | 0 <= i < |queue'| ensures 0 <= queue'[i] < |matchedPet'| && matchedPet'[queue'[i]] == -1 {
      if i < |queue'| - 1 {
        assert queue'[i] == queue[i + 1];
      }
    }
    forall r | 0 <= r < |matchedPet'| && matchedPet'[r] == -1 ensures r in queue' {
      if r != x {
        var i :| 0 <= i < |queue| && queue[i] == r;
        assert i != 0;
        assert queue'[i - 1] == r;
      } else {
        assert queue'[|queue'| - 1] == x;
      }
    }
  }

  /** Popping the proposer's queue and updating the match arrays within range keeps the sizes. */
  lemma SizesStep(prefs: seq<seq<int>>, ranks: seq<seq<int>>, n: int, left: seq<seq<int>>,
                  matchedPet: seq<int>, matchedPeople: seq<int>, matchedPet': seq<int>, matchedPeople': seq<int>, p: int)
    requires Sizes(prefs, ranks, n, left, matchedPet, matchedPeople) && 0 <= p < n && left[p] != []
    requires |matchedPet'| == n && forall r :: 0 <= r < n ==> -1 <= matchedPet'[r] < n
    requires |matchedPeople'| == n && forall x :: 0 <= x < n ==> -1 <= matchedPeople'[x] < n
    ensures Sizes(prefs, ranks, n, left[p := left[p][1..]], matchedPet', matchedPeople')
  {
    var left' := left[p := left[p][1..]];
    forall r | 0 <= r < n ensures InRange(left'[r], n) {
      assert InRange(left[r], n);
      if r == p {
        forall j | 0 <= j < |left'[p]| ensures 1 <= left'[p][j] <= n {
          assert left'[p][j] == left[p][j + 1];
        }
      }
    }
  }

  /**
    * Every person's part of the invariant survives a proposal by the free
    * person p to pet q, the front of their queue, when pets only improve,
    * q ends up courted, p either stays free or holds q, and everybody else
    * either keeps their pet (which still holds them) or is freed.
    */
  lemma PersonsStep(prefs: seq<seq<int>>, ranks: seq<seq<int>>, n: int, left: seq<seq<int>>,
                    matchedPet: seq<int>, matchedPeople: seq<int>, left': seq<seq<int>>, matchedPet': seq<int>,
                    matchedPeople': seq<int>, p: int, q: int)
    requires |prefs| == n && |left| == n && |matchedPet| == n && |matchedPet'| == n
    requires forall r :: PersonOk(prefs, ranks, left, matchedPet, matchedPeople, r)
    requires 0 <= p < n && matchedPet[p] == -1 && left[p] != [] && q == left[p][0] - 1
    requires PetsImprove(ranks, matchedPeople, matchedPeople') && Courted(ranks, matchedPeople', q, p)
    requires matchedPet'[p] != -1 ==> matchedPet'[p] == q && 0 <= q < |matchedPeople'| && matchedPeople'[q] == p
    requires forall r :: 0 <= r < n && r != p && matchedPet'[r] != -1 ==>
      matchedPet'[r] == matchedPet[r] && 0 <= matchedPet'[r] < |matchedPeople'| && matchedPeople'[matchedPet'[r]] == r
    requires left' == left[p := left[p][1..]]
    ensures forall r :: PersonOk(prefs, ranks, left', matchedPet', matchedPeople', r)
  {
    forall r ensures PersonOk(prefs, ranks, left', matchedPet', matchedPeople', r) {
      if 0 <= r < n {
        assert PersonOk(prefs, ranks, left, matchedPet, matchedPeople, r);
        if r == p {
          ProposerKeeps(prefs, ranks, left, matchedPet, matchedPeople, left', matchedPet', matchedPeople', p, q);
        } else {
          PersonKeeps(prefs, ranks, left, matchedPet, matchedPeople, left', matchedPet', matchedPeople', r);
        }
      }
    }
  }

  /** A matched person's pet holds them. */
  lemma HeldBy(prefs: seq<seq<int>>, ranks: seq<seq<int>>, left: seq<seq<int>>, matchedPet: seq<int>,
               matchedPeople: seq<int>, r: int)
    requires PersonOk(prefs, ranks, left, matchedPet, matchedPeople, r)
    requires 0 <= r < |prefs| && r < |left| && r < |matchedPet| && matchedPet[r] != -1
    ensures 0 <= matchedPet[r] < |matchedPeople| && matchedPeople[matchedPet[r]] == r
  {
  }

  /** The person at the front of the queue proposes to a free pet: the two are matched. */
  lemma AcceptKeeps(prefs: seq<seq<int>>, ranks: seq<seq<int>>, n: int, left: seq<seq<int>>,
                    matchedPet: seq<int>, matchedPeople: seq<int>, queue: seq<int>, p: int, q: int)
    requires Proposing(prefs, ranks, n, left, matchedPet, matchedPeople, queue)
    requires queue != [] && p == queue[0] && 0 <= p < n && left[p] != [] && q == left[p][0] - 1 && 0 <= q < n
    requires matchedPeople[q] == -1
    ensures Proposing(prefs, ranks, n, left[p := left[p][1..]], matchedPet[p := q], matchedPeople[q := p], queue[1..])
  {
    var pet', people' := matchedPet[p := q], matchedPeople[q := p];
    assert matchedPet[p] == -1;
    SizesStep(prefs, ranks, n, left, matchedPet, matchedPeople, pet', people', p);
    forall r | 0 <= r < n && r != p && pet'[r] != -1
      ensures 0 <= pet'[r] < |people'| && people'[pet'[r]] == r
    {
      HeldBy(prefs, ranks, left, matchedPet, matchedPeople, r);
    }
    PersonsStep(prefs, ranks, n, left, matchedPet, matchedPeople, left[p := left[p][1..]], pet', people', p, q);
    forall x ensures PetOk(pet', people', x) {
      assert PetOk(matchedPet, matchedPeople, x);
    }
    forall i | 1 <= i < |queue| ensures pet'[queue[i]] == -1 {
      assert queue[i] != queue[0];
    }
    PopKeeps(queue, matchedPet, pet');
  }

  /** The match arrays and queues after a replacement: sizes, every person and every pet keep their part. */
  lemma ReplaceMatches(prefs: seq<seq<int>>, ranks: seq<seq<int>>, n: int, left: seq<seq<int>>,
                       matchedPet: seq<int>, matchedPeople: seq<int>, queue: seq<int>, p: int, q: int, m: int,
                       left': seq<seq<int>>, pet': seq<int>, people': seq<int>)
    requires Proposing(prefs, ranks, n, left, matchedPet, matchedPeople, queue)
    requires queue != [] && p == queue[0] && 0 <= p < n && left[p] != [] && q == left[p][0] - 1 && 0 <= q < n
    requires m == matchedPeople[q] && m != -1 && ranks[q][p] < ranks[q][m]
    requires left' == left[p := left[p][1..]] && pet' == matchedPet[m := -1][p := q] && people' == matchedPeople[q := p]
    ensures Sizes(prefs, ranks, n, left', pet', people')
    ensures forall r :: PersonOk(prefs, ranks, left', pet', people', r)
    ensures forall x :: PetOk(pet', people', x)
  {
    assert PetOk(matchedPet, matchedPeople, q);
    assert matchedPet[p] == -1 && m != p;
    SizesStep(prefs, ranks, n, left, matchedPet, matchedPeople, pet', people', p);
    forall r | 0 <= r < n && r != p && pet'[r] != -1
      ensures 0 <= pet'[r] < |people'| && people'[pet'[r]] == r
    {
      HeldBy(prefs, ranks, left, matchedPet, matchedPeople, r);
    }
    PersonsStep(prefs, ranks, n, left, matchedPet, matchedPeople, left', pet', people', p, q);
    forall x ensures PetOk(pet', people', x) {
      assert PetOk(matchedPet, matchedPeople, x);
    }
  }

  /** The pet ranks the proposer strictly better than its person m: m is freed and queued, the proposer matched. */
  lemma ReplaceKeeps(prefs: seq<seq<int>>, ranks: seq<seq<int>>, n: int, left: seq<seq<int>>,
                     matchedPet: seq<int>, matchedPeople: seq<int>, queue: seq<int>, p: int, q: int, m: int)
    requires Proposing(prefs, ranks, n, left, matchedPet, matchedPeople, queue)
    requires queue != [] && p == queue[0] && 0 <= p < n && left[p] != [] && q == left[p][0] - 1 && 0 <= q < n
    requires m == matchedPeople[q] && m != -1 && ranks[q][p] < ranks[q][m]
    ensures Proposing(prefs, ranks, n, left[p := left[p][1..]], matchedPet[m := -1][p := q], matchedPeople[q := p], queue[1..] + [m])
  {
    var pet' := matchedPet[m := -1][p := q];
    ReplaceMatches(prefs, ranks, n, left, matchedPet, matchedPeople, queue, p, q, m,
                   left[p := left[p][1..]], pet', matchedPeople[q := p]);
    assert PetOk(matchedPet, matchedPeople, q);
    assert matchedPet[p] == -1 && m != p;
    forall i | 1 <= i < |queue| ensures pet'[queue[i]] == -1 && queue[i] != m {
      assert queue[i] != queue[0];
    }
    forall r | 0 <= r < n && pet'[r] == -1 && r != m ensures matchedPet[r] == -1 && r != queue[0] {
      assert r != p;
    }
    RequeueKeeps(queue, matchedPet, pet', m);
  }

  /** The pet keeps its person m: the proposer goes back to the end of the queue. */
  lemma RejectKeeps(prefs: seq<seq<int>>, ranks: seq<seq<int>>, n: int, left: seq<seq<int>>,
                    matchedPet: seq<int>, matchedPeople: seq<int>, queue: seq<int>, p: int, q: int)
    requires Proposing(prefs, ranks, n, left, matchedPet, matchedPeople, queue)
    requires queue != [] && p == queue[0] && 0 <= p < n && left[p] != [] && q == left[p][0] - 1 && 0 <= q < n
    requires var m := matchedPeople[q]; m != -1 && !(ranks[q][p] < ranks[q][m])
    ensures Proposing(prefs, ranks, n, left[p := left[p][1..]], matchedPet, matchedPeople, queue[1..] + [p])
  {
    assert PetOk(matchedPet, matchedPeople, q);
    assert matchedPet[p] == -1;
    SizesStep(prefs, ranks, n, left, matchedPet, matchedPeople, matchedPet, matchedPeople, p);
    forall r | 0 <= r < n && r != p && matchedPet[r] != -1
      ensures 0 <= matchedPet[r] < |matchedPeople| && matchedPeople[matchedPet[r]] == r
    {
      HeldBy(prefs, ranks, left, matchedPet, matchedPeople, r);
    }
    PersonsStep(prefs, ranks, n, left, matchedPet, matchedPeople, left[p := left[p][1..]], matchedPet, matchedPeople, p, q);
    forall i | 1 <= i < |queue| ensures matchedPet[queue[i]] == -1 && queue[i] != p {
      assert queue[i] != queue[0];
    }
    RequeueKeeps(queue, matchedPet, matchedPet, p);
  }

  // ---------------------------------------------------------------------
  // One pass of the loop body, on values.

  /** What the loop works on: the queues left, the two match arrays and the free-person queue. */
  datatype Round = Round(left: seq<seq<int>>, matchedPet: seq<int>, matchedPeople: seq<int>, queue: seq<int>)

  /**
    * The front person p is popped and proposes to q, the next pet of their
    * queue. A free pet takes p; a pet that ranks p strictly better than its
    * person m takes p, and m is freed and queued; a pet that does not keeps
    * m, and p is queued again.
    */
  function Proposal(prefs: seq<seq<int>>, ranks: seq<seq<int>>, n: int, left: seq<seq<int>>,
                    matchedPet: seq<int>, matchedPeople: seq<int>, queue: seq<int>): Round
    requires Proposing(prefs, ranks, n, left, matchedPet, matchedPeople, queue)
    requires queue != [] && left[queue[0]] != []
  {
    var p := queue[0];
    assert InRange(left[p], n);
    var q := left[p][0] - 1;
    var m := matchedPeople[q];
    var left' := left[p := left[p][1..]];
    if m == -1 then Round(left', matchedPet[p := q], matchedPeople[q := p], queue[1..])
    else if ranks[q][p] < ranks[q][m] then Round(left', matchedPet[m := -1][p := q], matchedPeople[q := p], queue[1..] + [m])
    else Round(left', matchedPet, matchedPeople, queue[1..] + [p])
  }

  /** A proposal keeps the invariant of the loop. */
  lemma ProposalKeeps(prefs: seq<seq<int>>, ranks: seq<seq<int>>, n: int, left: seq<seq<int>>,
                      matchedPet: seq<int>, matchedPeople: seq<int>, queue: seq<int>)
    requires Proposing(prefs, ranks, n, left, matchedPet, matchedPeople, queue)
    requires queue != [] && left[queue[0]] != []
    ensures var r := Proposal(prefs, ranks, n, left, matchedPet, matchedPeople, queue);
      Proposing(prefs, ranks, n, r.left, r.matchedPet, r.matchedPeople, r.queue)
  {
    var p := queue[0];
    assert InRange(left[p], n);
    var q := left[p][0] - 1;
    var m := matchedPeople[q];
    if m == -1 {
      AcceptKeeps(prefs, ranks, n, left, matchedPet, matchedPeople, queue, p, q);
    } else if ranks[q][p] < ranks[q][m] {
      ReplaceKeeps(prefs, ranks, n, left, matchedPet, matchedPeople, queue, p, q, m);
    } else {
      RejectKeeps(prefs, ranks, n, left, matchedPet, matchedPeople, queue, p, q);
    }
  }

  /**
    * A proposal uses up exactly one preference, and leaves no matched pet
    * worse off: a matched pet stays matched, and changes only to a person
    * it ranks strictly better.
    */
  lemma ProposalImproves(prefs: seq<seq<int>>, ranks: seq<seq<int>>, n: int, left: seq<seq<int>>,
                         matchedPet: seq<int>, matchedPeople: seq<int>, queue: seq<int>)
    requires Proposing(prefs, ranks, n, left, matchedPet, matchedPeople, queue)
    requires queue != [] && left[queue[0]] != []
    ensures var r := Proposal(prefs, ranks, n, left, matchedPet, matchedPeople, queue);
      && PetsImprove(ranks, matchedPeople, r.matchedPeople)
      && SumOfLengths(r.left) == SumOfLengths(left) - 1
  {
    var p := queue[0];
    SumOfLengthsUpdate(left, p, left[p][1..]);
  }

  // ---------------------------------------------------------------------
  // The function itself.

  /**
    * The loop body of performStableMatching: the front person is popped and
    * their next preference taken. With none left the pass reports it and
    * changes nothing; otherwise the pass is the proposal above, applied to
    * the two objects.
    */
  method Propose(people: People, pets: Pet, unmatchedPeople: seq<int>, ghost prefs: seq<seq<int>>)
    returns (unmatchedPeople': seq<int>, exhausted: bool)
    requires unmatchedPeople != []
    requires Proposing(prefs, pets.petPreferenceRanks, people.peopleCount, people.peoplePreferences,
                       people.matchedPet, pets.matchedPeople, unmatchedPeople)
    modifies people, pets
    ensures people.peopleCount == old(people.peopleCount) && pets.petPreferenceRanks == old(pets.petPreferenceRanks)
    ensures pets.petCount == old(pets.petCount) && pets.petPreferences == old(pets.petPreferences)
    ensures exhausted <==> old(people.peoplePreferences[unmatchedPeople[0]]) == []
    ensures exhausted ==>
      && people.peoplePreferences == old(people.peoplePreferences)
      && people.matchedPet == old(people.matchedPet) && pets.matchedPeople == old(pets.matchedPeople)
    ensures !exhausted ==>
      Round(people.peoplePreferences, people.matchedPet, pets.matchedPeople, unmatchedPeople')
      == Proposal(prefs, old(pets.petPreferenceRanks), old(people.peopleCount), old(people.peoplePreferences),
                  old(people.matchedPet), old(pets.matchedPeople), unmatchedPeople)
  {
    ghost var n, left, ranks := people.peopleCount, people.peoplePreferences, pets.petPreferenceRanks;
    ghost var matchedPet, matchedPeople := people.matchedPet, pets.matchedPeople;
    var currentPerson := unmatchedPeople[0];
    unmatchedPeople' := unmatchedPeople[1..];
    assert InRange(left[currentPerson], n);
    var preferredPetIndex := people.GetPeoplePreference(currentPerson);
    assert left[currentPerson] != [] ==> preferredPetIndex == left[currentPerson][0];
    if preferredPetIndex != -1 {
      preferredPetIndex := preferredPetIndex - 1;
    } else {
      exhausted := true;
      return;
    }
    exhausted := false;
    assert left[currentPerson] != [] && preferredPetIndex == left[currentPerson][0] - 1;
    ghost var result := Proposal(prefs, ranks, n, left, matchedPet, matchedPeople, unmatchedPeople);
    assert people.peoplePreferences == result.left;
    var currentPetMaster := pets.GetMatchedPerson(preferredPetIndex);
    if currentPetMaster == -1 {
      pets.SetMatchedPerson(preferredPetIndex, currentPerson);
      people.SetMatchedPet(currentPerson, preferredPetIndex);
    } else if pets.ComparePetPreferenceRank(preferredPetIndex, currentPerson) {
      unmatchedPeople' := unmatchedPeople' + [currentPetMaster];
      people.SetMatchedPet(currentPetMaster, -1);
      pets.SetMatchedPerson(preferredPetIndex, currentPerson);
      people.SetMatchedPet(currentPerson, preferredPetIndex);
    } else {
      unmatchedPeople' := unmatchedPeople' + [currentPerson];
    }
  }

  /**
    * performStableMatching, on freshly loaded people and pets (nobody
    * matched). The queue of free people starts as 0..n-1; the loop runs
    * until it is empty, each pass using up one preference, and fails as
    * soon as a free person has none left. On success everybody is matched,
    * the two arrays are mutual inverses, and there is no blocking pair;
    * when every person lists every pet it always succeeds.
    */
  method PerformStableMatching(people: People, pets: Pet) returns (ok: bool)
    requires |people.peoplePreferences| == people.peopleCount
    requires forall p :: 0 <= p < people.peopleCount ==> InRange(people.peoplePreferences[p], people.peopleCount)
    requires |people.matchedPet| == people.peopleCount && forall p :: 0 <= p < people.peopleCount ==> people.matchedPet[p] == -1
    requires |pets.matchedPeople| == people.peopleCount && forall q :: 0 <= q < people.peopleCount ==> pets.matchedPeople[q] == -1
    requires |pets.petPreferenceRanks| == people.peopleCount
    requires forall q :: 0 <= q < people.peopleCount ==> |pets.petPreferenceRanks[q]| == people.peopleCount
    modifies people, pets
    ensures people.peopleCount == old(people.peopleCount) && pets.petPreferenceRanks == old(pets.petPreferenceRanks)
    ensures pets.petCount == old(pets.petCount) && pets.petPreferences == old(pets.petPreferences)
    ensures |people.peoplePreferences| == people.peopleCount && |people.matchedPet| == people.peopleCount
    ensures Inverse(people.matchedPet, pets.matchedPeople, people.peopleCount)
    ensures ok ==> forall p :: 0 <= p < people.peopleCount ==> 0 <= people.matchedPet[p] < people.peopleCount
    ensures ok ==> NoBlockingPair(old(people.peoplePreferences), pets.petPreferenceRanks, people.matchedPet,
                                  pets.matchedPeople, people.peopleCount)
    ensures !ok ==> exists p :: 0 <= p < people.peopleCount && people.peoplePreferences[p] == [] && people.matchedPet[p] == -1
    ensures AllListed(old(people.peoplePreferences), people.peopleCount) ==> ok
  {
    ghost var prefs, ranks := people.peoplePreferences, pets.petPreferenceRanks;
    var n := people.GetPeopleCount();
    var unmatchedPeople: seq<int> := [];
    var i := 0;
    while i < n
      invariant 0 <= i <= n && unmatchedPeople == seq(i, k => k)
    {
      unmatchedPeople := unmatchedPeople + [i];
      i := i + 1;
    }
    assert people.matchedPet == seq(n, _ => -1) && pets.matchedPeople == seq(n, _ => -1);
    InitialProposing(prefs, ranks, n);

    while unmatchedPeople != []
      invariant people.peopleCount == n && pets.petPreferenceRanks == ranks
      invariant pets.petCount == old(pets.petCount) && pets.petPreferences == old(pets.petPreferences)
      invariant Proposing(prefs, ranks, n, people.peoplePreferences, people.matchedPet, pets.matchedPeople, unmatchedPeople)
      decreases SumOfLengths(people.peoplePreferences)
    {
      var currentPerson := unmatchedPeople[0];
      ghost var queue, left, matchedPet, matchedPeople := unmatchedPeople, people.peoplePreferences, people.matchedPet, pets.matchedPeople;
      var exhausted;
      unmatchedPeople, exhausted := Propose(people, pets, unmatchedPeople, prefs);
      if !exhausted {
        ProposalKeeps(prefs, ranks, n, left, matchedPet, matchedPeople, queue);
        ProposalImproves(prefs, ranks, n, left, matchedPet, matchedPeople, queue);
      } else {
        if AllListed(prefs, n) {
          ExhaustedAllMatched(prefs, ranks, n, people.peoplePreferences, people.matchedPet, pets.matchedPeople,
                              queue, currentPerson);
          assert false;
        }
        ProposingInverse(prefs, ranks, n, people.peoplePreferences, people.matchedPet, pets.matchedPeople, queue);
        return false;
      }
    }
    ProposingStable(prefs, ranks, n, people.peoplePreferences, people.matchedPet, pets.matchedPeople);
    return true;
  }
}
