/** What every list of the program's objects is asked for. */
module Lists {

  /** Nothing stands in the list twice. */
  ghost predicate Distinct<T>(l: seq<T>) {
    forall i, j :: 0 <= i < j < |l| ==> l[i] != l[j]
  }
}
