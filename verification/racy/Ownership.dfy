/** Who must release what, for the two racily initialised cells: every thing that exists has exactly one
    owner. */
module Ownership {

  /** Each live thing belongs to outsiders (`foreign`), to the shared cell (`shared`) or to one thread. */
  ghost predicate OneOwner<T(!new)>(live: set<T>, foreign: set<T>, shared: set<T>, owned: seq<set<T>>) {
    && foreign <= live && shared <= live && foreign !! shared
    && (forall i | 0 <= i < |owned| :: owned[i] <= live - foreign - shared)
    && (forall i, j | 0 <= i < j < |owned| :: owned[i] !! owned[j])
    && (forall x | x in live && x !in foreign && x !in shared :: exists i :: 0 <= i < |owned| && x in owned[i])
  }

  /** A thread that replaces what it and the cell own by things no one else owns keeps the owners apart. */
  lemma Exchange<T(!new)>(live: set<T>, foreign: set<T>, shared: set<T>, owned: seq<set<T>>,
                          i: nat, shared': set<T>, mine: set<T>)
    requires OneOwner(live, foreign, shared, owned) && i < |owned|
    requires live - owned[i] - shared !! mine + shared' && mine !! shared'
    ensures OneOwner(live - owned[i] - shared + mine + shared', foreign, shared', owned[i := mine])
  {
    var live', owned' := live - owned[i] - shared + mine + shared', owned[i := mine];
    forall x | x in live' && x !in foreign && x !in shared'
      ensures exists j :: 0 <= j < |owned'| && x in owned'[j]
    {
      if x in mine {
        assert x in owned'[i];
      } else {
        var j :| 0 <= j < |owned| && x in owned[j];
        assert x in owned'[j];
      }
    }
  }

  /** Outsiders create things, and release only their own. */
  lemma Outsiders<T(!new)>(live: set<T>, foreign: set<T>, shared: set<T>, owned: seq<set<T>>, x: T)
    requires OneOwner(live, foreign, shared, owned)
    ensures x !in live ==> OneOwner(live + {x}, foreign + {x}, shared, owned)
    ensures x in foreign ==> OneOwner(live - {x}, foreign - {x}, shared, owned)
  {
    if x !in live {
      forall y | y in live + {x} && y !in foreign + {x} && y !in shared
        ensures exists i :: 0 <= i < |owned| && y in owned[i]
      {
        assert y in live;
      }
    }
  }

  /** When no thread owns anything, all that is left is what the cell holds. */
  lemma NoneOwned<T(!new)>(live: set<T>, foreign: set<T>, shared: set<T>, owned: seq<set<T>>)
    requires OneOwner(live, foreign, shared, owned)
    requires forall i | 0 <= i < |owned| :: owned[i] == {}
    ensures live - foreign == shared
  {
  }
}
