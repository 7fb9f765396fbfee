/**
  * Pet.cpp: the pets of the stable-matching program. Each pet has a
  * preference list of person numbers (1-based, most preferred first), the
  * rank table built from it (the rank of 0-based person k is the 1-based
  * position of k + 1 in the list), and an entry of `matchedPeople` holding
  * the 0-based index of its person, or -1.
  */
module PetGroup {
  import opened Sequences

  /** The entries of a preference list name persons 1..n. */
  ghost predicate InRange(pref: seq<int>, n: int)
  {
    forall j :: 0 <= j < |pref| ==> 1 <= pref[j] <= n
  }

  /**
    * The rank table of loadData after the writes for the entries of `pref`:
    * a zeroed row of n entries, and for the j-th entry (0-based) the rank
    * j + 1 written at entry pref[j] - 1.
    */
  function RankRow(pref: seq<int>, n: nat): (r: seq<int>)
    requires InRange(pref, n)
    ensures |r| == n
  {
    if pref == [] then seq(n, _ => 0)
    else
      var j := |pref| - 1;
      RankRow(pref[..j], n)[pref[j] - 1 := j + 1]
  }

  /**
    * An unlisted person has rank 0; a listed one has the 1-based position of
    * the last entry naming them, since a later write overwrites an earlier one.
    */
  lemma {:induction false} RankRowAt(pref: seq<int>, n: nat, k: int)
    requires InRange(pref, n) && 0 <= k < n
    ensures k + 1 !in pref ==> RankRow(pref, n)[k] == 0
    ensures k + 1 in pref ==>
      var r := RankRow(pref, n)[k];
      && 1 <= r <= |pref| && pref[r - 1] == k + 1
      && forall j :: r <= j < |pref| ==> pref[j] != k + 1
    decreases |pref|
  {
    if pref != [] {
      var j := |pref| - 1;
      var front := pref[..j];
      assert pref == front + [pref[j]];
      if pref[j] != k + 1 {
        RankRowAt(front, n, k);
        assert RankRow(pref, n)[k] == RankRow(front, n)[k];
        if k + 1 in pref {
          var i :| 0 <= i < |pref| && pref[i] == k + 1;
          assert front[i] == k + 1;
        }
      }
    }
  }

  /** For a list without repeats, the rank table is its inverse: the j-th entry gets rank j + 1. */
  lemma RankRowInverse(pref: seq<int>, n: nat)
    requires InRange(pref, n) && Distinct(pref)
    ensures forall j :: 0 <= j < |pref| ==> RankRow(pref, n)[pref[j] - 1] == j + 1
  {
    forall j | 0 <= j < |pref| ensures RankRow(pref, n)[pref[j] - 1] == j + 1 {
      RankRowAt(pref, n, pref[j] - 1);
      assert pref[j] in pref;
    }
  }

  /**
    * The rank-table loop of loadData: a zeroed row of n entries, then for each
    * entry `preference` of the list, in order, the current rank written at
    * preference - 1 and the rank advanced.
    */
  method BuildRankRow(petPreferenceList: seq<int>, n: nat) returns (row: seq<int>)
    requires InRange(petPreferenceList, n)
    ensures row == RankRow(petPreferenceList, n)
  {
    var petPreferenceRankList := new int[n](_ => 0);
    var rank := 1;
    var j := 0;
    assert petPreferenceRankList[..] == RankRow(petPreferenceList[..0], n);
    while j < |petPreferenceList|
      invariant 0 <= j <= |petPreferenceList| && rank == j + 1
      invariant petPreferenceRankList[..] == RankRow(petPreferenceList[..j], n)
    {
      var preference := petPreferenceList[j];
      petPreferenceRankList[preference - 1] := rank;
      rank := rank + 1;
      j := j + 1;
      assert petPreferenceList[..j][..j - 1] == petPreferenceList[..j - 1];
    }
    assert petPreferenceList[..j] == petPreferenceList;
    row := petPreferenceRankList[..];
  }

  class Pet {
    var petCount: int
    var petPreferences: seq<seq<int>>
    var petPreferenceRanks: seq<seq<int>>
    var matchedPeople: seq<int>

    /** Every pet's rank row is the rank table of its preference list. */
    ghost predicate Ranked()
      reads this
    {
      petCount >= 0 && |petPreferenceRanks| == |petPreferences|
      && forall q :: 0 <= q < |petPreferences| ==>
           InRange(petPreferences[q], petCount) && petPreferenceRanks[q] == RankRow(petPreferences[q], petCount)
    }

    /**
      * The state loadData leaves once the file is read: `count` pets, each
      * with its preference list of `count` person numbers and its rank row,
      * and no pet matched.
      */
    constructor (count: nat, preferences: seq<seq<int>>)
      requires |preferences| == count
      requires forall i :: 0 <= i < count ==> |preferences[i]| == count && InRange(preferences[i], count)
      ensures petCount == count && petPreferences == preferences && Ranked()
      ensures |matchedPeople| == count && forall i :: 0 <= i < count ==> matchedPeople[i] == -1
    {
      var ranks: seq<seq<int>> := [];
      var i := 0;
      while i < count
        invariant 0 <= i <= count && |ranks| == i
        invariant forall q :: 0 <= q < i ==> ranks[q] == RankRow(preferences[q], count)
      {
        var petPreferenceRankList := BuildRankRow(preferences[i], count);
        ranks := ranks + [petPreferenceRankList];
        i := i + 1;
      }
      petCount := count;
      petPreferences := preferences;
      petPreferenceRanks := ranks;
      matchedPeople := seq(count, _ => -1);
    }

    /** getPetCount. */
    function GetPetCount(): int
      reads this
    {
      petCount
    }

    /** getMatchedPerson, for an index in range. */
    function GetMatchedPerson(petIndex: int): int
      reads this
      requires 0 <= petIndex < |matchedPeople|
    {
      matchedPeople[petIndex]
    }

    /** setMatchedPerson: afterwards getMatchedPerson(petIndex) is personIndex; every other entry and field is unchanged. */
    method SetMatchedPerson(petIndex: int, personIndex: int)
      requires 0 <= petIndex < |matchedPeople|
      modifies this
      ensures matchedPeople == old(matchedPeople)[petIndex := personIndex] && GetMatchedPerson(petIndex) == personIndex
      ensures petCount == old(petCount) && petPreferences == old(petPreferences)
      ensures petPreferenceRanks == old(petPreferenceRanks)
    {
      matchedPeople := matchedPeople[petIndex := personIndex];
    }

    /**
      * comparePetPreferenceRank: whether the pet ranks the proposed person
      * strictly better (a smaller rank number) than its current person, who
      * must exist. The comparison is strict, so the current person never
      * wins against themselves.
      */
    function ComparePetPreferenceRank(petIndex: int, proposedPersonIndex: int): (r: bool)
      reads this
      requires 0 <= petIndex < |matchedPeople| && petIndex < |petPreferenceRanks|
      requires 0 <= proposedPersonIndex < |petPreferenceRanks[petIndex]|
      requires 0 <= matchedPeople[petIndex] < |petPreferenceRanks[petIndex]|
      ensures proposedPersonIndex == matchedPeople[petIndex] ==> !r
    {
      petPreferenceRanks[petIndex][proposedPersonIndex] < petPreferenceRanks[petIndex][GetMatchedPerson(petIndex)]
    }

    /**
      * When the pet's list has no repeats and names both persons, the pet
      * prefers the proposed person exactly when they come first in its list.
      */
    lemma ComparePrefersEarlier(petIndex: int, proposedPersonIndex: int)
      requires Ranked() && 0 <= petIndex < |petPreferences| && |matchedPeople| == |petPreferences|
      requires Distinct(petPreferences[petIndex])
      requires var m := matchedPeople[petIndex];
        && 0 <= proposedPersonIndex < petCount && 0 <= m < petCount
        && proposedPersonIndex + 1 in petPreferences[petIndex] && m + 1 in petPreferences[petIndex]
      ensures ComparePetPreferenceRank(petIndex, proposedPersonIndex) <==>
        Find(petPreferences[petIndex], proposedPersonIndex + 1) < Find(petPreferences[petIndex], matchedPeople[petIndex] + 1)
    {
      var pref := petPreferences[petIndex];
      RankRowAt(pref, petCount, proposedPersonIndex);
      RankRowAt(pref, petCount, matchedPeople[petIndex]);
    }
  }
}
