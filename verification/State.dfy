/** The variables that the routines of the source share.

    A pointer into the subject is an index into it; a null pointer, or one that
    points elsewhere, is any number that is not such an index. */
module State {
  import opened Pattern

  class Globals {
    const braslist: array<int>
    const braelist: array<int>
    var sed: bool
    var nbra: int
    var loc1: int
    var loc2: int
    var locs: int
    var nodelim: int
    var circf: int
    var low: int
    var size: int

    ghost predicate Valid() {
      braslist.Length == NBRA && braelist.Length == NBRA && braslist != braelist
    }

    /** Variables with static storage: zeros and null pointers. */
    constructor ()
      ensures Valid() && fresh(braslist) && fresh(braelist)
      ensures !sed && nbra == nodelim == circf == low == size == 0
      ensures loc1 == loc2 == locs == -1
    {
      braslist := new int[NBRA](_ => -1);
      braelist := new int[NBRA](_ => -1);
      sed, nbra, nodelim, circf, low, size := false, 0, 0, 0, 0, 0;
      loc1, loc2, locs := -1, -1, -1;
    }
  }
}
