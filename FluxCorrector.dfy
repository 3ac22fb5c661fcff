/** Index bookkeeping of the flux-corrected transport (FCT) limiter: which
    global scalar components are limited together as a system, which three
    components form a velocity, and the shape of the antidiffusive element
    contribution (AEC) storage. */
module FluxCorrector {
  import opened Wrappers

  /** The input-deck entries read for one equation type (CompFlow here):
      the number of components of each configured system, the per-system
      system-FCT flag and variable lists, and the total number of scalar
      components of all systems (`nprop`). */
  datatype SystemConfig = SystemConfig(
    ncomp: seq<nat>,
    sysfct: seq<bool>,
    sysfctvar: seq<seq<nat>>,
    nprop: nat)

  /** Three component indices forming a velocity vector. */
  type Triple = (nat, nat, nat)

  /** tk::Fields as far as the model sees it: its number of unknowns (rows)
      and of scalar components (columns). Stored values are not modelled. */
  datatype Fields = Fields(nunk: nat, nprop: nat)

  /** The indices of the first n systems whose flag is set, in system order. */
  function Flagged(flags: seq<bool>, n: nat): (r: seq<nat>)
    requires n <= |flags|
    ensures forall k :: 0 <= k < |r| ==> r[k] < n && flags[r[k]]
  {
    if n == 0 then [] else Flagged(flags, n - 1) + (if flags[n - 1] then [n - 1] else [])
  }

  /** `vars` shifted by the system's component offset. */
  function Shifted(offset: nat, vars: seq<nat>): (r: seq<nat>)
    ensures |r| == |vars|
  {
    seq(|vars|, k requires 0 <= k < |vars| => offset + vars[k])
  }

  /** findsys reads `sysfct.at(e)` for every system and `sysfctvar.at(e)` for
      every flagged one; this says none of those reads is out of range. */
  predicate DeckIndexable(cfg: SystemConfig)
  {
    && |cfg.ncomp| <= |cfg.sysfct|
    && forall e :: 0 <= e < |cfg.ncomp| && cfg.sysfct[e] ==> e < |cfg.sysfctvar|
  }

  /** The assertion findsys makes on its result, stated on the deck: every
      shifted system-FCT index it would produce is below nprop. */
  predicate SysIndicesBelowNprop(cfg: SystemConfig, offset: nat -> nat)
  {
    forall e, k ::
      (0 <= e < |cfg.ncomp| && e < |cfg.sysfct| && cfg.sysfct[e] &&
       e < |cfg.sysfctvar| && 0 <= k < |cfg.sysfctvar[e]|) ==>
      offset(e) + cfg.sysfctvar[e][k] < cfg.nprop
  }

  /** The assertion findvel makes on its result, stated on the deck. */
  predicate VelIndicesBelowNprop(cfg: SystemConfig, offset: nat -> nat)
  {
    forall e :: 0 <= e < |cfg.ncomp| ==> offset(e) + 3 < cfg.nprop
  }

  /** findsys: one list per system with system FCT switched on, in system
      order, holding that system's system-FCT variables shifted by the
      system's offset. `offset(e)` models ncomp::offset<Eq>(e). An out-of-range
      `at()` is a Failure. */
  method FindSys(cfg: SystemConfig, offset: nat -> nat) returns (r: Result<seq<seq<nat>>, DeckError>)
    requires DeckIndexable(cfg) ==> SysIndicesBelowNprop(cfg, offset)
    ensures r.Success? <==> DeckIndexable(cfg)
    ensures r.Success? ==>
              var flagged := Flagged(cfg.sysfct, |cfg.ncomp|);
              && |r.value| == |flagged|
              && forall k :: 0 <= k < |flagged| ==>
                   r.value[k] == Shifted(offset(flagged[k]), cfg.sysfctvar[flagged[k]])
    ensures r.Success? ==>
              forall k, i :: 0 <= k < |r.value| && 0 <= i < |r.value[k]| ==> r.value[k][i] < cfg.nprop
  {
    var sys: seq<seq<nat>> := [];
    var e := 0;
    while e < |cfg.ncomp|
      invariant e <= |cfg.ncomp| && e <= |cfg.sysfct|
      invariant forall e' :: 0 <= e' < e && cfg.sysfct[e'] ==> e' < |cfg.sysfctvar|
      invariant |sys| == |Flagged(cfg.sysfct, e)|
      invariant forall k :: 0 <= k < |sys| ==>
                  var f := Flagged(cfg.sysfct, e)[k];
                  sys[k] == Shifted(offset(f), cfg.sysfctvar[f])
    {
      if e >= |cfg.sysfct| {
        return Failure(OutOfRange);
      }
      if cfg.sysfct[e] {
        if e >= |cfg.sysfctvar| {
          return Failure(OutOfRange);
        }
        var off := offset(e);
        var vars := cfg.sysfctvar[e];
        ghost var before := sys;
        sys := sys + [[]];
        var i := 0;
        while i < |vars|
          invariant 0 <= i <= |vars|
          invariant sys == before + [Shifted(off, vars[..i])]
        {
          assert Shifted(off, vars[..i + 1]) == Shifted(off, vars[..i]) + [off + vars[i]];
          sys := sys[..|sys| - 1] + [sys[|sys| - 1] + [off + vars[i]]];
          i := i + 1;
        }
        assert vars[..i] == vars;
      }
      e := e + 1;
    }
    forall k, i | 0 <= k < |sys| && 0 <= i < |sys[k]|
      ensures sys[k][i] < cfg.nprop
    {
      var f := Flagged(cfg.sysfct, e)[k];
      assert sys[k][i] == offset(f) + cfg.sysfctvar[f][i];
    }
    r := Success(sys);
  }

  /** findvel: one triple (offset+1, offset+2, offset+3) per system, in order. */
  method FindVel(cfg: SystemConfig, offset: nat -> nat) returns (vel: seq<Triple>)
    requires VelIndicesBelowNprop(cfg, offset)
    ensures |vel| == |cfg.ncomp|
    ensures forall e :: 0 <= e < |vel| ==> vel[e] == (offset(e) + 1, offset(e) + 2, offset(e) + 3)
    ensures forall e :: 0 <= e < |vel| ==>
              vel[e].0 < cfg.nprop && vel[e].1 < cfg.nprop && vel[e].2 < cfg.nprop
  {
    vel := [];
    var e := 0;
    while e < |cfg.ncomp|
      invariant e <= |cfg.ncomp| && |vel| == e
      invariant forall e' :: 0 <= e' < e ==> vel[e'] == (offset(e') + 1, offset(e') + 2, offset(e') + 3)
    {
      var off := offset(e);
      vel := vel + [(off + 1, off + 2, off + 3)];
      e := e + 1;
    }
  }

  /** A system index is listed by Flagged exactly when it is in range and flagged. */
  lemma {:induction false} FlaggedMembers(flags: seq<bool>, n: nat, e: nat)
    requires n <= |flags|
    ensures e in Flagged(flags, n) <==> e < n && flags[e]
  {
    if n > 0 {
      FlaggedMembers(flags, n - 1, e);
    }
  }

  /** Flagged lists system indices below n in strictly increasing order. */
  lemma {:induction false} FlaggedIncreasing(flags: seq<bool>, n: nat)
    requires n <= |flags|
    ensures forall a, b :: 0 <= a < b < |Flagged(flags, n)| ==> Flagged(flags, n)[a] < Flagged(flags, n)[b]
  {
    if n > 0 {
      FlaggedIncreasing(flags, n - 1);
    }
  }

  /** An FCT object: the AEC storage, the system index lists and the
      velocity triples, fixed at construction from the input deck. */
  class FluxCorrector {
    const nprop: nat
    var aec: Fields
    var sys: seq<seq<nat>>
    var vel: seq<Triple>

    /** Every AEC row holds one entry per scalar component, and every
        system and velocity index names one of those components. */
    predicate Valid()
      reads this
    {
      && aec.nprop == nprop
      && (forall k, i :: 0 <= k < |sys| && 0 <= i < |sys[k]| ==> sys[k][i] < nprop)
      && (forall e :: 0 <= e < |vel| ==> vel[e].0 < nprop && vel[e].1 < nprop && vel[e].2 < nprop)
    }

    constructor (inpoelSize: nat, nprop: nat, sys: seq<seq<nat>>, vel: seq<Triple>)
      requires forall k, i :: 0 <= k < |sys| && 0 <= i < |sys[k]| ==> sys[k][i] < nprop
      requires forall e :: 0 <= e < |vel| ==> vel[e].0 < nprop && vel[e].1 < nprop && vel[e].2 < nprop
      ensures Valid()
      ensures this.nprop == nprop && aec == Fields(inpoelSize, nprop)
      ensures this.sys == sys && this.vel == vel
    {
      this.nprop := nprop;
      aec := Fields(inpoelSize, nprop);
      this.sys := sys;
      this.vel := vel;
    }

    /** The C++ constructor FluxCorrector(is): sizes the AEC storage to
        (inpoelSize, nprop) and collects the CompFlow system and velocity indices;
        a throw from findsys surfaces as a Failure. */
    static method Create(inpoelSize: nat, cfg: SystemConfig, offset: nat -> nat)
      returns (r: Result<FluxCorrector, DeckError>)
      requires DeckIndexable(cfg) ==> SysIndicesBelowNprop(cfg, offset) && VelIndicesBelowNprop(cfg, offset)
      ensures r.Success? <==> DeckIndexable(cfg)
      ensures r.Success? ==> fresh(r.value) && r.value.Valid()
      ensures r.Success? ==> r.value.aec == Fields(inpoelSize, cfg.nprop) && r.value.nprop == cfg.nprop
      ensures r.Success? ==>
                var flagged := Flagged(cfg.sysfct, |cfg.ncomp|);
                && |r.value.sys| == |flagged|
                && forall k :: 0 <= k < |flagged| ==>
                     r.value.sys[k] == Shifted(offset(flagged[k]), cfg.sysfctvar[flagged[k]])
      ensures r.Success? ==>
                && |r.value.vel| == |cfg.ncomp|
                && forall e :: 0 <= e < |cfg.ncomp| ==>
                     r.value.vel[e] == (offset(e) + 1, offset(e) + 2, offset(e) + 3)
    {
      var s := FindSys(cfg, offset);
      if s.Failure? {
        return Failure(s.error);
      }
      var v := FindVel(cfg, offset);
      var fc := new FluxCorrector(inpoelSize, cfg.nprop, s.value, v);
      r := Success(fc);
    }

    /** resize(is): re-sizes the AEC storage to `inpoelSize` unknowns, keeping nprop
        components; the index lists are untouched. */
    method Resize(inpoelSize: nat)
      requires Valid()
      modifies this
      ensures Valid()
      ensures aec == Fields(inpoelSize, nprop)
      ensures sys == old(sys) && vel == old(vel)
    {
      aec := Fields(inpoelSize, nprop);
    }
  }
}
