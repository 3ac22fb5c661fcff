/** The node-set and boundary-condition bookkeeping of the continuous-Galerkin
    single-material compressible flow PDE: which nodes lie in the user-defined
    initial-condition box, and the Dirichlet boundary conditions it sets on a
    side set. */
module CGCompFlow {
  import opened Mesh

  /** Number of scalar components of compressible flow (m_ncomp): density,
      three momentum components and total energy. */
  const NComp: nat := 5

  /** std::numeric_limits<double>::epsilon(), that is 2^-52. */
  const Eps: real := 0.0000000000000002220446049250313080847263336181640625

  /** A configured CompFlow system: its index among the CompFlow systems. */
  datatype CompFlow = CompFlow(system: nat)

  /** The IC box as configured in the deck (all zero when not configured). */
  datatype IcBox = IcBox(xmin: real, xmax: real, ymin: real, ymax: real, zmin: real, zmax: real)

  function Abs(p: real): (r: real)
    ensures r >= 0.0 && (r == p || r == -p)
  {
    if p < 0.0 then -p else p
  }

  /** The six box bounds in the order the source lists them. */
  function Bounds(box: IcBox): seq<real>
  {
    [box.xmin, box.xmax, box.ymin, box.ymax, box.zmin, box.zmax]
  }

  /** A box IC is configured when some bound is farther than eps from zero. */
  predicate Configured(box: IcBox)
  {
    exists p | p in Bounds(box) :: Abs(p) > Eps
  }

  /** Node i lies strictly inside the open box. */
  predicate Inside(coord: Coords, box: IcBox, i: nat)
    requires HasNode(coord, i)
  {
    && box.xmin < coord.x[i] < box.xmax
    && box.ymin < coord.y[i] < box.ymax
    && box.zmin < coord.z[i] < box.zmax
  }

  /** IcBoxNodes(): adds to `inbox` every node strictly inside the IC box,
      when one is configured. The C++ in/out set is passed in and returned. */
  method IcBoxNodes(coord: Coords, box: IcBox, inbox: set<nat>) returns (result: set<nat>)
    requires Configured(box) ==> |coord.y| >= |coord.x| && |coord.z| >= |coord.x|
    ensures inbox <= result
    ensures !Configured(box) ==> result == inbox
    ensures Configured(box) ==>
              forall i: nat :: i in result <==> i in inbox || (i < |coord.x| && Inside(coord, box, i))
  {
    result := inbox;
    if Configured(box) {
      var i := 0;
      while i < |coord.x|
        invariant i <= |coord.x|
        invariant inbox <= result
        invariant forall k: nat :: k in result <==> k in inbox || (k < i && Inside(coord, box, k))
      {
        if box.xmin < coord.x[i] < box.xmax && box.ymin < coord.y[i] < box.ymax &&
           box.zmin < coord.z[i] < box.zmax
        {
          result := result + {i};
        }
        i := i + 1;
      }
    }
  }

  /** The time (or time step) at which node n is evaluated: its own in
      steady-state mode, the shared one otherwise. */
  function NodeTime(steady: bool, shared: real, perNode: seq<real>, n: nat): real
    requires steady ==> n < |perNode|
  {
    if steady then perNode[n] else shared
  }

  /** What dirbc() needs of node n: coordinates and, when steady, its own
      time and time step. */
  predicate Evaluable(coord: Coords, steady: bool, tp: seq<real>, dtp: seq<real>, n: nat)
  {
    HasNode(coord, n) && (steady ==> n < |tp| && n < |dtp|)
  }

  /** dirbc(): the Dirichlet BC increments set on side set `ss`. Side sets are
      matched against the first configured list only. `bcdir` is the deck's
      list of Dirichlet side-set lists, `parse` models std::stoi, `solinc` the
      solution increment of the problem's initial conditions, `steady` the
      deck's steady-state flag and tp, dtp the per-node times and steps. */
  method DirBc(pde: CompFlow, bcdir: seq<seq<string>>, steady: bool, parse: string -> int,
               solinc: SolutionIncrement, t: real, deltat: real, tp: seq<real>, dtp: seq<real>,
               ss: SideSet, coord: Coords)
    returns (bc: map<nat, NodeBc>)
    requires bcdir != [] && Listed(bcdir[0], parse, ss.id) ==>
               forall n :: n in ss.nodes ==> Evaluable(coord, steady, tp, dtp, n)
    requires YieldsComponents(solinc, pde.system, NComp)
    ensures bcdir == [] ==> bc == map[]
    ensures forall n :: n in bc <==> bcdir != [] && Listed(bcdir[0], parse, ss.id) && n in ss.nodes
    ensures forall n :: n in bc ==>
              Evaluable(coord, steady, tp, dtp, n) &&
              Carries(bc[n], solinc(pde.system, NComp, coord.x[n], coord.y[n], coord.z[n],
                                    NodeTime(steady, t, tp, n), NodeTime(steady, deltat, dtp, n)), NComp)
  {
    bc := map[];
    var tn, dtn := t, deltat;
    if bcdir != [] {
      var bcs := bcdir[0];
      var k := 0;
      while k < |bcs|
        invariant k <= |bcs|
        invariant !steady ==> tn == t && dtn == deltat
        invariant forall n :: n in bc <==> Listed(bcs[..k], parse, ss.id) && n in ss.nodes
        invariant forall n :: n in bc ==>
                    Evaluable(coord, steady, tp, dtp, n) &&
                    Carries(bc[n], solinc(pde.system, NComp, coord.x[n], coord.y[n], coord.z[n],
                                          NodeTime(steady, t, tp, n), NodeTime(steady, deltat, dtp, n)), NComp)
      {
        ListedExtend(bcs, parse, ss.id, k);
        if parse(bcs[k]) == ss.id {
          ListedWhole(bcs, parse, ss.id, k);
          var i := 0;
          while i < |ss.nodes|
            invariant i <= |ss.nodes|
            invariant !steady ==> tn == t && dtn == deltat
            invariant forall n :: n in bc <==> (Listed(bcs[..k], parse, ss.id) && n in ss.nodes) || n in ss.nodes[..i]
            invariant forall n :: n in bc ==>
                        Evaluable(coord, steady, tp, dtp, n) &&
                        Carries(bc[n], solinc(pde.system, NComp, coord.x[n], coord.y[n], coord.z[n],
                                              NodeTime(steady, t, tp, n), NodeTime(steady, deltat, dtp, n)), NComp)
          {
            var n := ss.nodes[i];
            assert Evaluable(coord, steady, tp, dtp, n);
            if steady {
              tn, dtn := tp[n], dtp[n];
            }
            var s := solinc(pde.system, NComp, coord.x[n], coord.y[n], coord.z[n], tn, dtn);
            YieldsAt(solinc, pde.system, NComp, coord.x[n], coord.y[n], coord.z[n], tn, dtn);
            bc := bc[n := [(true, s[0]), (true, s[1]), (true, s[2]), (true, s[3]), (true, s[4])]];
            assert ss.nodes[..i + 1] == ss.nodes[..i] + [n];
            i := i + 1;
          }
          assert ss.nodes[..i] == ss.nodes;
        }
        k := k + 1;
      }
      assert bcs[..k] == bcs;
    }
  }
}
