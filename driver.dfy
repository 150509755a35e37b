/**
 * The one rule of main in epic.go that is not I/O: the loop over the missing
 * dates returns as soon as the index exceeds 1, so only the first two
 * missing dates are fetched, in order.
 */
module Driver {
  import opened Records
  import opened Reconcile

  /** The dates main's loop handles from position `index` of the missing dates on. */
  function HandledFrom(rest: seq<string>, index: nat): (r: seq<string>)
    ensures r <= rest
    ensures |r| == if index > 1 then 0 else if |rest| < 2 - index then |rest| else 2 - index
    decreases |rest|
  {
    if rest == [] then []
    else if index > 1 then []
    else [rest[0]] + HandledFrom(rest[1..], index + 1)
  }

  /** The missing dates main fetches manifests for. */
  function Handled(missing: seq<string>): (r: seq<string>)
    ensures |r| <= 2
    ensures r == missing[..if |missing| < 2 then |missing| else 2]
  {
    HandledFrom(missing, 0)
  }

  /** Each date main fetches is listed by the catalog and absent from the mirror. */
  lemma HandledAreMissing(nasa: seq<Date>, epic: seq<Date>, d: string)
    requires d in Handled(Missing(nasa, epic))
    ensures d in Dates(nasa) && d !in Dates(epic)
  {
    MissingMembership(nasa, epic, d);
  }
}
