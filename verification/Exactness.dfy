/** Writes with an up-to-date local copy succeed. */
module Exactness {
  import opened Api

  /** The local copy is the stored resource. */
  predicate Exact(st: Store, cr: Cr) {
    var i := Find(st.crs, cr.name);
    i < |st.crs| && st.crs[i] == cr
  }

  lemma FindAt(crs: seq<Cr>, i: nat, name: string)
    requires i < |crs| && crs[i].name == name && forall j :: 0 <= j < i ==> crs[j].name != name
    ensures Find(crs, name) == i
  {
  }

  lemma WriteExact(st: Store, cr: Cr, condition: Condition, finalizer: bool)
    requires Exact(st, cr)
    ensures var (st', reply) := Write(st, cr, condition, finalizer);
            var i := Find(st.crs, cr.name);
            && reply == Written(cr.(condition := condition, finalizer := finalizer, version := st.tick))
            && st'.crs == (if cr.deleting && !finalizer then RemoveAt(st.crs, i) else st.crs[i := reply.cr])
            && (!cr.deleting || finalizer ==> Exact(st', reply.cr) && Find(st'.crs, cr.name) == i)
  {
    var (st', reply) := Write(st, cr, condition, finalizer);
    var i := Find(st.crs, cr.name);
    if !cr.deleting || finalizer { FindAt(st'.crs, i, cr.name); }
  }
}
