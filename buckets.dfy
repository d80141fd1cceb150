/**
 * Lookup of a call-graph edge in one slot's collision chain
 * (`tracing_callgraph_bucket_find`, tracing.c:75-99).
 *
 * The chain that `bucket->next` links is a sequence here, head first. Names are
 * values; the source's pointer comparison of class names is value equality,
 * which interning makes the same.
 */
module Buckets {
  import opened Wrappers
  import opened EdgeKey

  /** One aggregated parent -> child edge; the root edge has no parent names. */
  datatype Bucket = Bucket(
    key: Word64,
    parentClass: Option<string>,
    parentFunction: Option<string>,
    parentRecurseLevel: int,
    childClass: Option<string>,
    childFunction: Option<string>,
    childRecurseLevel: int)

  /** The condition under which the loop at tracing.c:78-92 returns `b`. */
  predicate Matches(b: Bucket, current: Ident, previous: Option<Ident>, key: Word64)
  {
    b.key == key
    && b.childRecurseLevel == current.recurseLevel
    && b.childClass == current.className
    && b.childFunction == current.functionName
    && ((previous.None? && b.parentClass.None? && b.parentFunction.None?)
        || (previous.Some?
            && previous.value.recurseLevel == b.parentRecurseLevel
            && previous.value.className == b.parentClass
            && previous.value.functionName == b.parentFunction))
  }

  /**
   * Walks the chain and returns the position of the first bucket that matches,
   * or None when none does.
   */
  method BucketFind(chain: seq<Bucket>, current: Ident, previous: Option<Ident>, key: Word64)
    returns (r: Option<nat>)
    ensures r.Some? ==> r.value < |chain| && Matches(chain[r.value], current, previous, key)
    ensures r.Some? ==> forall j :: 0 <= j < r.value ==> !Matches(chain[j], current, previous, key)
    ensures r.None? <==> forall j :: 0 <= j < |chain| ==> !Matches(chain[j], current, previous, key)
  {
    var i := 0;
    while i < |chain|
      invariant 0 <= i <= |chain|
      invariant forall j :: 0 <= j < i ==> !Matches(chain[j], current, previous, key)
    {
      var bucket := chain[i];
      if bucket.key == key
         && bucket.childRecurseLevel == current.recurseLevel
         && bucket.childClass == current.className
         && bucket.childFunction == current.functionName
      {
        if previous.None? && bucket.parentClass.None? && bucket.parentFunction.None? {
          // the root edge
          return Some(i);
        } else if previous.Some?
                  && previous.value.recurseLevel == bucket.parentRecurseLevel
                  && previous.value.className == bucket.parentClass
                  && previous.value.functionName == bucket.parentFunction
        {
          return Some(i);
        }
      }
      i := i + 1;
    }
    return None;
  }

  /** A parent -> child edge; the root edge has no parent. */
  datatype Edge = Edge(parent: Option<Ident>, child: Ident)

  /** The edge a bucket stands for: a bucket with neither parent name is the root edge. */
  function EdgeOf(b: Bucket): Edge
  {
    var parent :=
      if b.parentClass.None? && b.parentFunction.None? then None
      else Some(Ident(b.parentClass, b.parentFunction, b.parentRecurseLevel));
    Edge(parent, Ident(b.childClass, b.childFunction, b.childRecurseLevel))
  }

  /**
   * For a caller that has a function name (every frame on the stack has one), a bucket
   * matches exactly when its key is the lookup key and its edge is the looked-up edge.
   */
  lemma MatchIsExactEdge(b: Bucket, current: Ident, previous: Option<Ident>, key: Word64)
    requires previous.Some? ==> previous.value.functionName.Some?
    ensures Matches(b, current, previous, key) <==> b.key == key && EdgeOf(b) == Edge(previous, current)
  {
  }

  /** A root lookup only ever returns a root bucket, never a non-root one with the same child. */
  lemma RootLookupFindsOnlyRootBuckets(b: Bucket, current: Ident, key: Word64)
    requires Matches(b, current, None, key)
    ensures b.parentClass.None? && b.parentFunction.None?
    ensures EdgeOf(b) == Edge(None, current)
  {
  }

  /** Two different edges are never merged into one bucket, even when their keys collide. */
  lemma DistinctEdgesNeverShareABucket(b: Bucket, c1: Ident, p1: Option<Ident>, c2: Ident, p2: Option<Ident>, key: Word64)
    requires p1.Some? ==> p1.value.functionName.Some?
    requires p2.Some? ==> p2.value.functionName.Some?
    requires Matches(b, c1, p1, key) && Matches(b, c2, p2, key)
    ensures Edge(p1, c1) == Edge(p2, c2)
  {
    MatchIsExactEdge(b, c1, p1, key);
    MatchIsExactEdge(b, c2, p2, key);
  }

  /**
   * Two root calls whose function names hash alike get the same key, yet the bucket
   * recorded for the first is not found for the second: the lookup on the chain that
   * holds only that bucket reports no match.
   */
  lemma CollidingKeysStayApart(H: string -> Word32, a: string, b: string, level: int)
    requires a != b && H(a) == H(b)
    ensures BucketKey(H, Ident(None, Some(a), level), None) == BucketKey(H, Ident(None, Some(b), level), None)
    ensures var key := BucketKey(H, Ident(None, Some(a), level), None);
            var bucket := Bucket(key, None, None, 0, None, Some(a), level);
            Matches(bucket, Ident(None, Some(a), level), None, key)
            && !Matches(bucket, Ident(None, Some(b), level), None, key)
  {
  }
}
