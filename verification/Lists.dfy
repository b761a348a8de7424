/** Two properties of lists that several modules speak of. */
module Lists {
  predicate NoRepeats(names: seq<string>) { forall j, k :: 0 <= j < k < |names| ==> names[j] != names[k] }

  predicate Ascending(ks: seq<nat>) { forall j, k :: 0 <= j < k < |ks| ==> ks[j] < ks[k] }
}
