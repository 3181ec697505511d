/** From the bundle a heartbeat refreshed to the files an agent writes. */
module CertDelivery {

  import opened Prelude
  import opened Bundles
  import CertPush
  import Reconcile = PfxReconcile

  /** A heartbeat goes on with the bundle it loaded, reloaded or rebuilt, among any number of others doing the
      same and writes from outside: the update it builds announces the hash of exactly the files that an
      agent with the same key decrypts. */
  lemma RefreshedBundleIsAnnouncedTruthfully(w: Reconcile.World, es: seq<Reconcile.Event>, p: nat,
                                             env: CertPush.Env, bs: seq<CertPush.Binding>, force: set<string>,
                                             u: CertPush.CertUpdate, password: Option<string>)
    requires Reconcile.Initial(w) && Reconcile.At(Reconcile.Run(w, es), p, Reconcile.Done)
    requires u in CertPush.Push(env, bs, force).0 && env.lost == {}
    requires var b := Reconcile.Run(w, es).procs[p].b;
             u.bundle in env.store && env.store[u.bundle] == CertPush.Loaded(b.files, b.hash, password)
    ensures CertPush.Landed(u, env.key, {}) == Reconcile.Run(w, es).procs[p].b.files
    ensures u.hash == HashOf(CertPush.Landed(u, env.key, {}))
  {
    hide Reconcile.Run, CertPush.Push, HashOf;
    Reconcile.ReturnedHashIsItsOwn(w, es, p);
    CertPush.HashIsOfCarriedFiles(env, bs, force, u);
  }
}
