/**
 * Hamt: the user-facing string set.  It hashes each string with its hasher
 * (std::hash<std::string> in the C++ code, a function value here) and hands
 * the hash and the string to its TopLevelHamtNode.
 */
module HamtSet {
  import opened HamtTable

  class Hamt {
    /** The hash function; every string of the set was inserted with its hash. */
    const hasher: string -> bv64

    /** The top-level table. */
    const root: TopLevelHamtNode

    ghost predicate Valid()
      reads this, root, root.table
    {
      root.Valid() && root.H == hasher
    }

    /** The strings in the set. */
    ghost function Contents(): set<string>
      reads this, root, root.table
    {
      root.Contents()
    }

    /** An empty set whose strings are hashed by `hasher`. */
    constructor (hasher: string -> bv64)
      ensures Valid() && Contents() == {} && this.hasher == hasher
      ensures fresh(root) && fresh(root.table)
    {
      this.hasher := hasher;
      root := new TopLevelHamtNode(hasher);
    }

    /** Insert a string into the set. */
    method Insert(str: string)
      requires Valid()
      modifies root.table
      ensures Valid() && Contents() == old(Contents()) + {str}
    {
      var hash := hasher(str);
      root.Insert(hash, str);
    }

    /** Whether a string is in the set. */
    method Lookup(str: string) returns (found: bool)
      requires Valid()
      ensures found <==> str in Contents()
    {
      var hash := hasher(str);
      found := root.Lookup(hash, str);
    }

    /** Delete a string from the set and say whether it was there. */
    method Remove(str: string) returns (removed: bool)
      requires Valid()
      modifies root.table
      ensures Valid()
      ensures removed <==> str in old(Contents())
      ensures Contents() == old(Contents()) - {str}
    {
      var hash := hasher(str);
      removed := root.Remove(hash, str);
    }
  }
}
