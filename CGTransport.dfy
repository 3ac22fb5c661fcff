/** The string and boundary-condition bookkeeping of the continuous-Galerkin
    scalar transport PDE: the names of its diagnostic and field outputs, and
    the Dirichlet boundary conditions it sets on a side set. */
module CGTransport {
  import opened Wrappers
  import opened Mesh

  /** A configured transport system: its index among the transport systems
      (m_system) and its number of scalar components (m_ncomp). */
  datatype Transport = Transport(system: nat, ncomp: nat)

  /** Name of component c: the dependent-variable character followed by the
      decimal form of c. `toString` models std::to_string. */
  function ComponentName(depvar: char, toString: nat -> string, c: nat): string
  {
    [depvar] + toString(c)
  }

  /** Output file suffix of block 0 (numerical), 1 (analytic) and 2 (error). */
  function Suffix(block: nat): string
  {
    if block == 0 then "_numerical" else if block == 1 then "_analytic" else "_error"
  }

  /** `n` holds one name per component, component c at position c. */
  ghost predicate IsNames(n: seq<string>, depvar: char, ncomp: nat, toString: nat -> string)
  {
    |n| == ncomp && forall c :: 0 <= c < ncomp ==> n[c] == ComponentName(depvar, toString, c)
  }

  /** `n` holds three blocks of ncomp names, numerical, analytic and error. */
  ghost predicate IsFieldNames(n: seq<string>, depvar: char, ncomp: nat, toString: nat -> string)
  {
    && |n| == 3 * ncomp
    && forall c :: 0 <= c < ncomp ==>
         && n[c] == ComponentName(depvar, toString, c) + "_numerical"
         && n[ncomp + c] == ComponentName(depvar, toString, c) + "_analytic"
         && n[2 * ncomp + c] == ComponentName(depvar, toString, c) + "_error"
  }

  /** `b` holds the first `count` names of one output block. */
  ghost predicate IsBlock(b: seq<string>, depvar: char, toString: nat -> string, suffix: string, count: nat)
  {
    |b| == count && forall c :: 0 <= c < count ==> b[c] == ComponentName(depvar, toString, c) + suffix
  }

  /** std::to_string gives distinct strings for distinct components. */
  ghost predicate InjectiveBelow(toString: nat -> string, ncomp: nat)
  {
    forall a, b :: 0 <= a < ncomp && 0 <= b < ncomp && toString(a) == toString(b) ==> a == b
  }

  /** names(): the integral-variable names of the system. `depvars` is the
      deck's per-system dependent-variable list; `.at(m_system)` past its end
      is a Failure. */
  method Names(pde: Transport, depvars: seq<char>, toString: nat -> string)
    returns (r: Result<seq<string>, DeckError>)
    ensures r.Success? <==> pde.system < |depvars|
    ensures r.Success? ==> IsNames(r.value, depvars[pde.system], pde.ncomp, toString)
  {
    if pde.system >= |depvars| {
      return Failure(OutOfRange);
    }
    var depvar := depvars[pde.system];
    var n: seq<string> := [];
    var c := 0;
    while c < pde.ncomp
      invariant c <= pde.ncomp && |n| == c
      invariant forall c' :: 0 <= c' < c ==> n[c'] == ComponentName(depvar, toString, c')
    {
      n := n + [ComponentName(depvar, toString, c)];
      c := c + 1;
    }
    r := Success(n);
  }

  /** fieldNames(): the field-output names, in three blocks. */
  method FieldNames(pde: Transport, depvars: seq<char>, toString: nat -> string)
    returns (r: Result<seq<string>, DeckError>)
    ensures r.Success? <==> pde.system < |depvars|
    ensures r.Success? ==> IsFieldNames(r.value, depvars[pde.system], pde.ncomp, toString)
  {
    if pde.system >= |depvars| {
      return Failure(OutOfRange);
    }
    var depvar := depvars[pde.system];
    var ncomp := pde.ncomp;
    var n: seq<string> := [];
    var c := 0;
    while c < ncomp
      invariant c <= ncomp && IsBlock(n, depvar, toString, "_numerical", c)
    {
      var name := ComponentName(depvar, toString, c) + "_numerical";
      n := n + [name];
      c := c + 1;
    }
    ghost var numerical := n;
    c := 0;
    while c < ncomp
      invariant c <= ncomp && |n| == ncomp + c && n[..ncomp] == numerical
      invariant IsBlock(n[ncomp..], depvar, toString, "_analytic", c)
    {
      var name := ComponentName(depvar, toString, c) + "_analytic";
      assert (n + [name])[ncomp..] == n[ncomp..] + [name];
      n := n + [name];
      c := c + 1;
    }
    ghost var analytic := n[ncomp..];
    c := 0;
    while c < ncomp
      invariant c <= ncomp && |n| == 2 * ncomp + c
      invariant n[..ncomp] == numerical && n[ncomp .. 2 * ncomp] == analytic
      invariant IsBlock(n[2 * ncomp..], depvar, toString, "_error", c)
    {
      var name := ComponentName(depvar, toString, c) + "_error";
      assert (n + [name])[2 * ncomp..] == n[2 * ncomp..] + [name];
      n := n + [name];
      c := c + 1;
    }
    forall c' | 0 <= c' < ncomp
      ensures n[c'] == ComponentName(depvar, toString, c') + "_numerical"
      ensures n[ncomp + c'] == ComponentName(depvar, toString, c') + "_analytic"
      ensures n[2 * ncomp + c'] == ComponentName(depvar, toString, c') + "_error"
    {
      assert n[c'] == numerical[c'];
      assert n[ncomp + c'] == analytic[c'];
      assert n[2 * ncomp + c'] == n[2 * ncomp..][c'];
    }
    r := Success(n);
  }

  /** dirbc(): the Dirichlet BC increments set on side set `ss`. `bcdir` is
      the deck's per-system list of Dirichlet side-set strings, `parse` models
      std::stoi and `solinc` the problem policy's solution increment. */
  method DirBc(pde: Transport, bcdir: seq<seq<string>>, parse: string -> int,
               solinc: SolutionIncrement, t: real, deltat: real, ss: SideSet, coord: Coords)
    returns (bc: map<nat, NodeBc>)
    requires bcdir != [] ==> pde.system < |bcdir|
    requires bcdir != [] && Listed(bcdir[pde.system], parse, ss.id) ==>
               forall n :: n in ss.nodes ==> HasNode(coord, n)
    requires YieldsComponents(solinc, pde.system, pde.ncomp)
    ensures bcdir == [] ==> bc == map[]
    ensures forall n :: n in bc <==> bcdir != [] && Listed(bcdir[pde.system], parse, ss.id) && n in ss.nodes
    ensures forall n :: n in bc ==>
              HasNode(coord, n) &&
              Carries(bc[n], solinc(pde.system, pde.ncomp, coord.x[n], coord.y[n], coord.z[n], t, deltat), pde.ncomp)
  {
    bc := map[];
    if bcdir != [] {
      var bcs := bcdir[pde.system];
      var k := 0;
      while k < |bcs|
        invariant k <= |bcs|
        invariant forall n :: n in bc <==> Listed(bcs[..k], parse, ss.id) && n in ss.nodes
        invariant forall n :: n in bc ==>
                    HasNode(coord, n) &&
                    Carries(bc[n], solinc(pde.system, pde.ncomp, coord.x[n], coord.y[n], coord.z[n], t, deltat), pde.ncomp)
      {
        ListedExtend(bcs, parse, ss.id, k);
        if parse(bcs[k]) == ss.id {
          ListedWhole(bcs, parse, ss.id, k);
          var i := 0;
          while i < |ss.nodes|
            invariant i <= |ss.nodes|
            invariant forall n :: n in bc <==> (Listed(bcs[..k], parse, ss.id) && n in ss.nodes) || n in ss.nodes[..i]
            invariant forall n :: n in bc ==>
                        HasNode(coord, n) &&
                        Carries(bc[n], solinc(pde.system, pde.ncomp, coord.x[n], coord.y[n], coord.z[n], t, deltat), pde.ncomp)
          {
            var n := ss.nodes[i];
            assert HasNode(coord, n);
            var s := solinc(pde.system, pde.ncomp, coord.x[n], coord.y[n], coord.z[n], t, deltat);
            YieldsAt(solinc, pde.system, pde.ncomp, coord.x[n], coord.y[n], coord.z[n], t, deltat);
            var nbc: NodeBc := seq(pde.ncomp, _ => (false, 0.0));
            var c := 0;
            while c < pde.ncomp
              invariant c <= pde.ncomp && |nbc| == pde.ncomp
              invariant forall c' :: 0 <= c' < c ==> nbc[c'] == (true, s[c'])
            {
              nbc := nbc[c := (true, s[c])];
              c := c + 1;
            }
            bc := bc[n := nbc];
            assert ss.nodes[..i + 1] == ss.nodes[..i] + [n];
            i := i + 1;
          }
          assert ss.nodes[..i] == ss.nodes;
        }
        k := k + 1;
      }
      assert bcs[..k] == bcs;
    }
  }

  /** The names of distinct components differ, provided std::to_string does. */
  lemma NamesDistinct(n: seq<string>, depvar: char, ncomp: nat, toString: nat -> string)
    requires IsNames(n, depvar, ncomp, toString) && InjectiveBelow(toString, ncomp)
    ensures forall a, b :: 0 <= a < b < |n| ==> n[a] != n[b]
  {
    forall a, b | 0 <= a < b < |n|
      ensures n[a] != n[b]
    {
      assert n[a][1..] == toString(a) && n[b][1..] == toString(b);
    }
  }

  /** Position k of the field names is component c of block `block`. */
  lemma FieldAt(n: seq<string>, depvar: char, ncomp: nat, toString: nat -> string, k: nat)
    returns (block: nat, c: nat)
    requires IsFieldNames(n, depvar, ncomp, toString) && k < |n|
    ensures block < 3 && c < ncomp
    ensures k == block * ncomp + c
    ensures n[k] == ComponentName(depvar, toString, c) + Suffix(block)
  {
    if k < ncomp {
      block, c := 0, k;
    } else if k < 2 * ncomp {
      block, c := 1, k - ncomp;
    } else {
      block, c := 2, k - 2 * ncomp;
    }
  }

  /** The last character of a string told apart by its suffix. */
  lemma LastOfSuffix(p: string, s: string)
    requires |s| > 0
    ensures (p + s)[|p + s| - 1] == s[|s| - 1]
  {
  }

  /** Equal strings with a common suffix have equal prefixes. */
  lemma AppendCancel(p1: string, p2: string, s: string)
    ensures p1 + s == p2 + s ==> p1 == p2
  {
    if p1 + s == p2 + s {
      assert |p1| == |p2|;
      assert p1 == (p1 + s)[..|p1|];
      assert p2 == (p2 + s)[..|p2|];
    }
  }

  /** No two field-output names coincide, provided std::to_string gives
      distinct strings for distinct components: the three blocks differ in
      their suffix and, within a block, in the component number. */
  lemma FieldNamesDistinct(n: seq<string>, depvar: char, ncomp: nat, toString: nat -> string)
    requires IsFieldNames(n, depvar, ncomp, toString) && InjectiveBelow(toString, ncomp)
    ensures forall a, b :: 0 <= a < b < |n| ==> n[a] != n[b]
  {
    forall a, b | 0 <= a < b < |n|
      ensures n[a] != n[b]
    {
      var ba, ca := FieldAt(n, depvar, ncomp, toString, a);
      var bb, cb := FieldAt(n, depvar, ncomp, toString, b);
      var pa, pb := ComponentName(depvar, toString, ca), ComponentName(depvar, toString, cb);
      if ba != bb {
        LastOfSuffix(pa, Suffix(ba));
        LastOfSuffix(pb, Suffix(bb));
      } else if ca != cb {
        assert pa[1..] == toString(ca) && pb[1..] == toString(cb);
        AppendCancel(pa, pb, Suffix(ba));
      }
    }
  }
}
