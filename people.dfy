/**
  * People.cpp: the people of the stable-matching program. Each person has a
  * queue of pet numbers (1-based, most preferred first) that proposals
  * consume, and an entry of `matchedPet` holding the 0-based index of the
  * pet they are matched with, or -1.
  */
module PeopleGroup {
  import opened Sequences

  class People {
    var peopleCount: int
    var peoplePreferences: seq<seq<int>>
    var matchedPet: seq<int>

    /**
      * The state loadData leaves once the file is read: `count` people, each
      * with a queue of `count` pet numbers in file order, and nobody matched.
      */
    constructor (count: nat, preferences: seq<seq<int>>)
      requires |preferences| == count
      requires forall i :: 0 <= i < count ==> |preferences[i]| == count
      ensures peopleCount == count && peoplePreferences == preferences
      ensures |matchedPet| == count && forall i :: 0 <= i < count ==> matchedPet[i] == -1
    {
      peopleCount := count;
      peoplePreferences := preferences;
      matchedPet := seq(count, _ => -1);
    }

    /** getPeopleCount. */
    function GetPeopleCount(): int
      reads this
    {
      peopleCount
    }

    /** isValidPeopleIndex: the index names one of the preference queues. */
    predicate IsValidPeopleIndex(peopleIndex: int)
      reads this
    {
      0 <= peopleIndex < |peoplePreferences|
    }

    /**
      * getPeoplePreference: for a valid index with a non-empty queue, the front
      * of that queue is returned and popped and no other queue changes;
      * otherwise -1 is returned and nothing changes. Either way the total
      * number of preferences left drops by exactly one or stays put.
      */
    method GetPeoplePreference(peopleIndex: int) returns (petIndex: int)
      modifies this
      ensures peopleCount == old(peopleCount) && matchedPet == old(matchedPet)
      ensures old(IsValidPeopleIndex(peopleIndex) && peoplePreferences[peopleIndex] != []) ==>
        && peoplePreferences == old(peoplePreferences)[peopleIndex := old(peoplePreferences[peopleIndex])[1..]]
        && old(peoplePreferences[peopleIndex]) == [petIndex] + peoplePreferences[peopleIndex]
        && SumOfLengths(peoplePreferences) == SumOfLengths(old(peoplePreferences)) - 1
      ensures !old(IsValidPeopleIndex(peopleIndex) && peoplePreferences[peopleIndex] != []) ==>
        petIndex == -1 && peoplePreferences == old(peoplePreferences)
    {
      if IsValidPeopleIndex(peopleIndex) && peoplePreferences[peopleIndex] != [] {
        var queue := peoplePreferences[peopleIndex];
        petIndex := queue[0];
        SumOfLengthsUpdate(peoplePreferences, peopleIndex, queue[1..]);
        peoplePreferences := peoplePreferences[peopleIndex := queue[1..]];
        return;
      }
      petIndex := -1;
    }

    /** getMatchedPet, for an index in range. */
    function GetMatchedPet(peopleIndex: int): int
      reads this
      requires 0 <= peopleIndex < |matchedPet|
    {
      matchedPet[peopleIndex]
    }

    /** setMatchedPet: afterwards getMatchedPet(peopleIndex) is petIndex; every other entry and field is unchanged. */
    method SetMatchedPet(peopleIndex: int, petIndex: int)
      requires 0 <= peopleIndex < |matchedPet|
      modifies this
      ensures matchedPet == old(matchedPet)[peopleIndex := petIndex] && GetMatchedPet(peopleIndex) == petIndex
      ensures peopleCount == old(peopleCount) && peoplePreferences == old(peoplePreferences)
    {
      matchedPet := matchedPet[peopleIndex := petIndex];
    }
  }
}
