/**
 * The module records of `app/algorithm.py` and the two relations the loaders
 * maintain between them: mutual exclusion (kept symmetric) and requirement
 * (one-directional). Python keeps each relation as a list rebuilt through a
 * `set` on every update, so it is unordered and duplicate-free: a `set` here.
 */
module Catalogue {

  class Module {
    const id: string
    const name: string
    const credits: int
    const semester: int
    const group: string
    const totalSpaces: int
    var availableSpaces: int
    var mutualExclusions: set<Module>
    var requirements: set<Module>

    constructor (id: string, name: string, credits: int, semester: int, group: string,
                 totalSpaces: int, availableSpaces: int,
                 mutualExclusions: set<Module>, requirements: set<Module>)
      ensures this.id == id && this.name == name && this.credits == credits
      ensures this.semester == semester && this.group == group
      ensures this.totalSpaces == totalSpaces && this.availableSpaces == availableSpaces
      ensures this.mutualExclusions == mutualExclusions && this.requirements == requirements
    {
      this.id := id;
      this.name := name;
      this.credits := credits;
      this.semester := semester;
      this.group := group;
      this.totalSpaces := totalSpaces;
      this.availableSpaces := availableSpaces;
      this.mutualExclusions := mutualExclusions;
      this.requirements := requirements;
    }

    /**
     * Unions `ms` into this module's exclusions, then, for every listed module
     * that does not list this one yet, makes it do so by the same method.
     */
    method AddMutualExclusions(ms: seq<Module>)
      modifies this, ms
      ensures mutualExclusions == old(mutualExclusions) + (set b | b in ms)
      ensures forall b :: b in ms && b != this ==> b.mutualExclusions == old(b.mutualExclusions) + {this}
      ensures requirements == old(requirements) && availableSpaces == old(availableSpaces)
      ensures forall b :: b in ms ==> b.requirements == old(b.requirements) && b.availableSpaces == old(b.availableSpaces)
      decreases |set b | b in ms && this !in b.mutualExclusions|
    {
      mutualExclusions := mutualExclusions + (set b | b in ms);
      for i := 0 to |ms|
        invariant mutualExclusions == old(mutualExclusions) + (set b | b in ms)
        invariant requirements == old(requirements) && availableSpaces == old(availableSpaces)
        invariant forall b :: b in ms[..i] && b != this ==> b.mutualExclusions == old(b.mutualExclusions) + {this}
        invariant forall b :: b in ms && b !in ms[..i] && b != this ==> b.mutualExclusions == old(b.mutualExclusions)
        invariant forall b :: b in ms ==> b.requirements == old(b.requirements) && b.availableSpaces == old(b.availableSpaces)
      {
        var b := ms[i];
        if this !in b.mutualExclusions {
          assert b != this && b !in ms[..i];
          assert b in old(set x | x in ms && this !in x.mutualExclusions);
          b.AddMutualExclusions([this]);
        }
        assert ms[..i + 1] == ms[..i] + [b];
      }
    }

    /** Unions `ms` into this module's requirements; the listed modules are untouched. */
    method AddRequirements(ms: seq<Module>)
      modifies this
      ensures requirements == old(requirements) + (set b | b in ms)
      ensures mutualExclusions == old(mutualExclusions) && availableSpaces == old(availableSpaces)
    {
      requirements := requirements + (set b | b in ms);
    }
  }

  /** Mutual exclusion among `mods` is symmetric. */
  ghost predicate ExclusionSymmetric(mods: set<Module>)
    reads mods
  {
    forall a, b :: a in mods && b in mods && b in a.mutualExclusions ==> a in b.mutualExclusions
  }
}
