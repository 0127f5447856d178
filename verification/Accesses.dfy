/** What one access comes to, in closed form: find_physpage on a page in memory and on one that is not. */
module Accesses {
  import opened Machine

  /** The ring position is the code's remainder modulo memsize. */
  lemma AroundIsRemainder(i: nat, k: nat, m: nat)
    requires i < m && k <= m
    ensures Around(i, k, m) == (i + k) % m
  {
    if i + k >= m {
      assert i + k == 1 * m + (i + k - m);
    }
  }

  lemma Overwrite<T>(xs: seq<T>, i: nat, a: T, b: T)
    requires i < |xs|
    ensures xs[i := a][i := b] == xs[i := b]
  {
  }

  lemma TouchHit(cfg: Config, s: State, p: nat, w: bool)
    requires Shape(cfg, s) && p < PAGES && s.pt[p].valid
    requires cfg.alg == Clock ==> s.pol.hand < cfg.memsize
    ensures Touch(cfg, s, p, w) ==
            s.(pt := s.pt[p := s.pt[p].(dirty := s.pt[p].dirty || w, valid := true, ref := true)],
               cnt := s.cnt.(refs := s.cnt.refs + 1), pol := HitPolicy(cfg, s.pol, s.pt[p].frame))
  {
    var e := s.pt[p].(dirty := s.pt[p].dirty || w);
    Overwrite(s.pt, p, e, e.(ref := true));
    Overwrite(s.pt, p, e, e.(valid := true, ref := true));
    Overwrite(s.pt, p, e.(ref := true), e.(valid := true, ref := true));
  }

  lemma LoadAndTouch(cfg: Config, s: State, p: nat, f: nat, vaddr: nat, w: bool)
    requires Shape(cfg, s) && p < PAGES && f < cfg.memsize && s.frames[f] == Some(p)
    requires s.pt[p].onswap ==> 0 <= SlotOf(s.pt[p]) < |s.swap|
    requires cfg.alg == Clock ==> s.pol.hand == f
    ensures Touch(cfg, Load(s, p, f, vaddr), p, w) == Loaded(cfg, s, p, f, vaddr, w)
  {
    var loaded := Load(s, p, f, vaddr);
    Overwrite(s.pt, p, loaded.pt[p], FreshPte(f, w, s.pt[p].swapOff));
  }

  lemma Hit(cfg: Config, s: State, p: nat, w: bool)
    requires Good(cfg) && Inv(cfg, s) && s.cnt.refs < |cfg.trace|
    requires p == PageOf(NextRef(cfg, s).vaddr) && w == IsWrite(NextRef(cfg, s)) && s.pt[p].valid
    ensures FindPhyspage(cfg, s) ==
            Some(s.(pt := s.pt[p := s.pt[p].(dirty := s.pt[p].dirty || w, ref := true)],
                    cnt := s.cnt.(hit := s.cnt.hit + 1, refs := s.cnt.refs + 1),
                    pol := HitPolicy(cfg, s.pol, s.pt[p].frame)))
  {
    TouchHit(cfg, s.(cnt := s.cnt.(hit := s.cnt.hit + 1)), p, w);
  }

  lemma Miss(cfg: Config, s: State, p: nat, w: bool)
    requires Good(cfg) && Inv(cfg, s) && s.cnt.refs < |cfg.trace|
    requires p == PageOf(NextRef(cfg, s).vaddr) && w == IsWrite(NextRef(cfg, s)) && !s.pt[p].valid
    ensures match AllocateFrame(cfg, s, p)
            case None => FindPhyspage(cfg, s) == None
            case Some((s1, f)) =>
              && Shape(cfg, s1)
              && (s1.pt[p].onswap ==> 0 <= SlotOf(s1.pt[p]) < |s1.swap|)
              && (cfg.alg == Clock ==> s1.pol.hand < cfg.memsize)
              && FindPhyspage(cfg, s) == Some(Loaded(cfg, s1, p, f, NextRef(cfg, s).vaddr, w))
  {
    AllocateFrameReady(cfg, s, p);
    match AllocateFrame(cfg, s, p)
    case None =>
    case Some((s1, f)) => LoadAndTouch(cfg, s1, p, f, NextRef(cfg, s).vaddr, w);
  }

  /** The slot that `q` is given is not the slot of any other page. */
  lemma SlotsApart(cfg: Config, s: State, p: nat, q: nat)
    requires Shape(cfg, s) && SwapInv(cfg, s) && p < PAGES && q < PAGES && p != q
    requires HasSlot(s.pt[p]) && SlotFor(cfg, s, q) < cfg.swapsize
    ensures SlotOf(s.pt[p]) != SlotFor(cfg, s, q)
  {
  }
}
