/** Mesh-side inputs shared by the PDE operators: node coordinates, side sets
    and the per-node Dirichlet boundary-condition values they produce. */
module Mesh {

  /** tk::UnsMesh::Coords: the x, y and z coordinates of the mesh nodes. */
  datatype Coords = Coords(x: seq<real>, y: seq<real>, z: seq<real>)

  /** Node `n` can be looked up in all three coordinate arrays. */
  predicate HasNode(coord: Coords, n: nat)
  {
    n < |coord.x| && n < |coord.y| && n < |coord.z|
  }

  /** A side set: its integer id and the (local) node ids on it. */
  datatype SideSet = SideSet(id: int, nodes: seq<nat>)

  /** Dirichlet BC of one node: per component, "is set" and the BC increment. */
  type NodeBc = seq<(bool, real)>

  /** The analytic solution increment between t+dt and t, evaluated by the
      problem policy: (system, ncomp, x, y, z, t, dt) -> one value per component. */
  type SolutionIncrement = (nat, nat, real, real, real, real, real) -> seq<real>

  /** The increment evaluator yields at least `ncomp` values everywhere. */
  ghost predicate YieldsComponents(solinc: SolutionIncrement, system: nat, ncomp: nat)
  {
    forall x: real, y: real, z: real, t: real, dt: real ::
      |solinc(system, ncomp, x, y, z, t, dt)| >= ncomp
  }

  lemma YieldsAt(solinc: SolutionIncrement, system: nat, ncomp: nat,
                 x: real, y: real, z: real, t: real, dt: real)
    requires YieldsComponents(solinc, system, ncomp)
    ensures |solinc(system, ncomp, x, y, z, t, dt)| >= ncomp
  {
  }

  /** Some side-set string of the configured list parses (via `parse`, the
      model of std::stoi) to the side-set id `id`. */
  ghost predicate Listed(bcs: seq<string>, parse: string -> int, id: int)
  {
    exists i :: 0 <= i < |bcs| && parse(bcs[i]) == id
  }

  /** Scanning one more side-set string adds one more chance to match. */
  lemma ListedExtend(bcs: seq<string>, parse: string -> int, id: int, k: nat)
    requires k < |bcs|
    ensures Listed(bcs[..k + 1], parse, id) <==> Listed(bcs[..k], parse, id) || parse(bcs[k]) == id
  {
    if Listed(bcs[..k + 1], parse, id) && parse(bcs[k]) != id {
      var i :| 0 <= i < k + 1 && parse(bcs[..k + 1][i]) == id;
      assert bcs[..k][i] == bcs[..k + 1][i];
    }
    if Listed(bcs[..k], parse, id) {
      var i :| 0 <= i < k && parse(bcs[..k][i]) == id;
      assert bcs[..k + 1][i] == bcs[..k][i];
    }
    if parse(bcs[k]) == id {
      assert bcs[..k + 1][k] == bcs[k];
    }
  }

  /** `v` sets each of the first ncomp components, flagged true, to the
      matching value of `s`. */
  ghost predicate Carries(v: NodeBc, s: seq<real>, ncomp: nat)
  {
    |v| == ncomp && ncomp <= |s| && forall c :: 0 <= c < ncomp ==> v[c] == (true, s[c])
  }

  /** A match at position k of the side-set strings is a match of the list. */
  lemma ListedWhole(bcs: seq<string>, parse: string -> int, id: int, k: nat)
    requires k < |bcs| && parse(bcs[k]) == id
    ensures Listed(bcs, parse, id)
  {
  }
}
