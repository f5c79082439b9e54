/**
 * The identifier generator behind `str(uuid4())`. Only freshness is modelled:
 * the identifier returned is not among those already in use. Randomness and
 * unguessability are not.
 */
module Uuid {

  /** A non-empty identifier that is not in `used` (a string longer than every identifier in use). */
  method Uuid4(used: set<string>) returns (id: string)
    ensures id !in used
    ensures |id| > 0
  {
    var longest: nat := 0;
    var rest := used;
    while rest != {}
      invariant rest <= used
      invariant forall s :: s in used && s !in rest ==> |s| <= longest
      decreases rest
    {
      var s :| s in rest;
      if |s| > longest {
        longest := |s|;
      }
      rest := rest - {s};
    }
    id := seq(longest + 1, _ => '0');
  }
}
