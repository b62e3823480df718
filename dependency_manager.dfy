/** The reference-counted dependency graph (`FileDependencyManager`, whose
    source is not part of this model): one node per resolved URI, present
    exactly while the URI is a key of the count map. */
module DependencyManager {
  import opened Common
  import opened Types

  /** The count of `uri`, zero when it has no node. */
  function Count(refCount: map<Uri, nat>, uri: Uri): nat {
    if uri in refCount then refCount[uri] else 0
  }

  /** The counts after `addReference`. */
  function Added(refCount: map<Uri, nat>, uri: Uri): map<Uri, nat> {
    refCount[uri := Count(refCount, uri) + 1]
  }

  /** `addReference` creates the node with one reference, or adds one, and
      touches no other node. */
  lemma AddedCounts(refCount: map<Uri, nat>, uri: Uri)
    ensures Added(refCount, uri).Keys == refCount.Keys + {uri}
    ensures Count(Added(refCount, uri), uri) == Count(refCount, uri) + 1
    ensures forall u :: u != uri ==> Count(Added(refCount, uri), u) == Count(refCount, u)
  {
  }

  datatype Removal = Removal(refCount: map<Uri, nat>, removed: bool)

  /** The counts after one reference is released, and whether the node went. */
  function Released(refCount: map<Uri, nat>, uri: Uri): Removal {
    if uri !in refCount then Removal(refCount, false)
    else if refCount[uri] > 1 then Removal(refCount[uri := refCount[uri] - 1], false)
    else Removal(refCount - {uri}, true)
  }

  /** A release lowers the count by one (not below zero) and deletes the node
      whose last reference goes (`removed`); releasing a URI without a node
      does nothing; no other node is touched. */
  lemma ReleasedCounts(refCount: map<Uri, nat>, uri: Uri)
    ensures var r := Released(refCount, uri);
            && Count(r.refCount, uri) == Max0(Count(refCount, uri) - 1)
            && (forall u :: u != uri ==> Count(r.refCount, u) == Count(refCount, u) && (u in r.refCount <==> u in refCount))
            && (r.removed <==> uri in refCount && refCount[uri] <= 1)
            && (uri in r.refCount <==> uri in refCount && !r.removed)
  {
  }

  class FileDependencyManager {
    var refCount: map<Uri, nat>

    constructor ()
      ensures refCount == map[]
    {
      refCount := map[];
    }

    /** `getDependency(uri) !== undefined`. */
    predicate HasDependency(uri: Uri)
      reads this
    {
      uri in refCount
    }

    method AddReference(uri: Uri)
      modifies this
      ensures refCount == Added(old(refCount), uri)
    {
      refCount := Added(refCount, uri);
    }

    method RemoveReference(uri: Uri) returns (removed: bool)
      modifies this
      ensures Removal(refCount, removed) == Released(old(refCount), uri)
    {
      var r := Released(refCount, uri);
      refCount, removed := r.refCount, r.removed;
    }

    /** Installs the counts left by a pruning pass. */
    method Replace(counts: map<Uri, nat>)
      modifies this
      ensures refCount == counts
    {
      refCount := counts;
    }
  }
}
