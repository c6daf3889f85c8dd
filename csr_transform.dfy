/**
 * The register-binding transform (CSRTransform.transform_instance) and the
 * clocked behaviour it adds to a storage register.
 *
 * The transform runs once over the registers a module collects: it binds
 * each register to the module under the register's own name, closes every
 * compound register against further finalisation and adds it to the
 * parent's submodules, and gives each storage register a delayed commit
 * strobe plus staging values that are written into storage on a commit.
 */
module CsrTransform {
  import opened Wrappers

  /** The register classes the transform tells apart. */
  datatype CsrKind =
    | Raw      // CSR: a plain command register, left as it is
    | Status   // CSRStatus: a compound register without storage
    | Storage  // CSRStorage: a compound register backed by `storage`

  /** A named bit range of a register. */
  datatype Field = Field(name: string, offset: nat, size: nat)

  /** A register as get_csrs() returns it; `fields` is empty when it was declared without fields. */
  datatype Csr = Csr(name: string, kind: CsrKind, size: nat, fields: seq<Field>)

  /** A per-field staging signal: the field it feeds, its signal name and its width. */
  datatype Latch = Latch(field: string, signal: string, width: nat)

  /** What `dat_w` becomes: one whole-register signal, or one staging signal per field. */
  datatype Staging = Whole(width: nat) | PerField(latches: seq<Latch>)

  /** The strobes and staging values the transform adds to a storage register. */
  datatype DelayedCommit = DelayedCommit(appliedName: string, commitName: string, staging: Staging)

  /** A register after the transform. */
  datatype Bound = Bound(csr: Csr, finalizeNeutered: bool, commit: Option<DelayedCommit>)

  datatype TransformError = GetCsrsConsumed  // calling get_csrs after it was set to None

  function StagingLatches(reg: string, fields: seq<Field>): (ls: seq<Latch>)
    ensures |ls| == |fields|
    ensures forall k :: 0 <= k < |fields| ==>
      ls[k] == Latch(fields[k].name, reg + "_" + fields[k].name + "0", fields[k].size)
  {
    if fields == [] then []
    else StagingLatches(reg, fields[..|fields| - 1]) + [Latch(fields[|fields| - 1].name, reg + "_" + fields[|fields| - 1].name + "0", fields[|fields| - 1].size)]
  }

  /** What the loop body of transform_instance does to one register. */
  function Bind(c: Csr): (b: Bound)
    ensures b.csr == c
    ensures c.kind == Raw ==> b == Bound(c, false, None)
    ensures b.finalizeNeutered <==> c.kind != Raw
    ensures b.commit.Some? <==> c.kind == Storage
    ensures b.commit.Some? ==>
      && b.commit.value.appliedName == c.name + "_re0"
      && b.commit.value.commitName == c.name + "_re"
      && (c.fields == [] <==> b.commit.value.staging == Whole(c.size))
    ensures b.commit.Some? && c.fields != [] ==>
      && b.commit.value.staging.PerField?
      && |b.commit.value.staging.latches| == |c.fields|
      && forall k :: 0 <= k < |c.fields| ==>
           && b.commit.value.staging.latches[k].field == c.fields[k].name
           && b.commit.value.staging.latches[k].signal == c.name + "_" + c.fields[k].name + "0"
           && b.commit.value.staging.latches[k].width == c.fields[k].size
  {
    match c.kind
    case Raw => Bound(c, false, None)
    case Status => Bound(c, true, None)
    case Storage =>
      var staging := if c.fields == [] then Whole(c.size) else PerField(StagingLatches(c.name, c.fields));
      Bound(c, true, Some(DelayedCommit(c.name + "_re0", c.name + "_re", staging)))
  }

  /** The module attributes after setattr(i, c.name, c) for each register of `v` in turn. */
  function BindAll(attrs: map<string, Bound>, v: seq<Csr>): (r: map<string, Bound>)
  {
    if v == [] then attrs
    else BindAll(attrs, v[..|v| - 1])[v[|v| - 1].name := Bind(v[|v| - 1])]
  }

  /** What the transform appends to the parent's submodules: every non-Raw register, in order. */
  function Compounds(v: seq<Csr>): (r: seq<Bound>)
    ensures |r| <= |v|
  {
    if v == [] then []
    else Compounds(v[..|v| - 1]) + (if v[|v| - 1].kind == Raw then [] else [Bind(v[|v| - 1])])
  }

  /** One more register through the binding loop: it is bound by name, and added to the parent if compound. */
  lemma BindStep(attrs: map<string, Bound>, v: seq<Csr>, k: nat)
    requires k < |v|
    ensures BindAll(attrs, v[..k + 1]) == BindAll(attrs, v[..k])[v[k].name := Bind(v[k])]
    ensures Compounds(v[..k + 1]) == Compounds(v[..k]) + (if v[k].kind == Raw then [] else [Bind(v[k])])
  {
    assert v[..k + 1][..k] == v[..k];
  }

  /** `v[j]` is the last register in `v` called `name`. */
  predicate LastNamed(v: seq<Csr>, name: string, j: int)
  {
    0 <= j < |v| && v[j].name == name && forall k :: j < k < |v| ==> v[k].name != name
  }

  /**
   * After the transform every collected register is an attribute under its
   * own name; when several share a name, the last one in collection order
   * wins; names no register carries keep their old binding.
   */
  lemma BindAllByName(attrs: map<string, Bound>, v: seq<Csr>, name: string)
    ensures name in BindAll(attrs, v) <==> name in attrs || exists j :: 0 <= j < |v| && v[j].name == name
    ensures forall j :: LastNamed(v, name, j) ==> BindAll(attrs, v)[name] == Bind(v[j])
    ensures (forall j :: 0 <= j < |v| ==> v[j].name != name) && name in attrs ==>
      BindAll(attrs, v)[name] == attrs[name]
  {
    BindAllKeys(attrs, v, name);
    forall j | LastNamed(v, name, j)
      ensures BindAll(attrs, v)[name] == Bind(v[j])
    {
      BindAllLast(attrs, v, name, j);
    }
    if (forall j :: 0 <= j < |v| ==> v[j].name != name) && name in attrs {
      BindAllUntouched(attrs, v, name);
    }
  }

  lemma {:induction false} BindAllKeys(attrs: map<string, Bound>, v: seq<Csr>, name: string)
    ensures name in BindAll(attrs, v) <==> name in attrs || exists j :: 0 <= j < |v| && v[j].name == name
  {
    if v != [] {
      var p := v[..|v| - 1];
      BindAllKeys(attrs, p, name);
      assert BindAll(attrs, v) == BindAll(attrs, p)[v[|v| - 1].name := Bind(v[|v| - 1])];
      if v[|v| - 1].name == name {
        assert name in BindAll(attrs, v);
      } else {
        assert forall j :: 0 <= j < |p| ==> p[j] == v[j];
        assert (exists j :: 0 <= j < |v| && v[j].name == name) <==> (exists j :: 0 <= j < |p| && p[j].name == name);
      }
    }
  }

  lemma {:induction false} BindAllLast(attrs: map<string, Bound>, v: seq<Csr>, name: string, j: nat)
    requires j < |v| && v[j].name == name
    requires forall k :: j < k < |v| ==> v[k].name != name
    ensures name in BindAll(attrs, v) && BindAll(attrs, v)[name] == Bind(v[j])
  {
    var p := v[..|v| - 1];
    assert BindAll(attrs, v) == BindAll(attrs, p)[v[|v| - 1].name := Bind(v[|v| - 1])];
    if j < |v| - 1 {
      assert p[j] == v[j];
      assert forall k :: j < k < |p| ==> p[k] == v[k];
      BindAllLast(attrs, p, name, j);
    }
  }

  lemma {:induction false} BindAllUntouched(attrs: map<string, Bound>, v: seq<Csr>, name: string)
    requires name in attrs
    requires forall j :: 0 <= j < |v| ==> v[j].name != name
    ensures name in BindAll(attrs, v) && BindAll(attrs, v)[name] == attrs[name]
  {
    if v != [] {
      var p := v[..|v| - 1];
      assert BindAll(attrs, v) == BindAll(attrs, p)[v[|v| - 1].name := Bind(v[|v| - 1])];
      assert forall j :: 0 <= j < |p| ==> p[j] == v[j];
      BindAllUntouched(attrs, p, name);
    }
  }

  /**
   * The parent's new submodules are exactly the bindings of the compound
   * registers, each with finalize neutered; Raw registers are never added.
   */
  lemma {:induction false} CompoundsAreClosed(v: seq<Csr>)
    ensures forall b :: b in Compounds(v) <==> exists j :: 0 <= j < |v| && v[j].kind != Raw && b == Bind(v[j])
    ensures forall b :: b in Compounds(v) ==> b.finalizeNeutered
  {
    if v != [] {
      var p := v[..|v| - 1];
      CompoundsAreClosed(p);
      assert forall j :: 0 <= j < |p| ==> p[j] == v[j];
      forall b | b in Compounds(v)
        ensures exists j :: 0 <= j < |v| && v[j].kind != Raw && b == Bind(v[j])
      {
        if b !in Compounds(p) {
          assert v[|v| - 1].kind != Raw && b == Bind(v[|v| - 1]);
        }
      }
      forall j | 0 <= j < |v| && v[j].kind != Raw
        ensures Bind(v[j]) in Compounds(v)
      {
        if j < |p| {
          assert Bind(p[j]) in Compounds(p);
        }
      }
    }
  }

  /** A migen module as far as the transform sees it. */
  class Module {
    /** get_csrs: Some(the registers it would return), None once it has been set to None. */
    var csrs: Option<seq<Csr>>
    /** The registers reachable as attributes, by name. */
    var attrs: map<string, Bound>
    var submodules: seq<Bound>

    constructor (csrs: seq<Csr>)
      ensures this.csrs == Some(csrs) && attrs == map[] && submodules == []
    {
      this.csrs := Some(csrs);
      attrs := map[];
      submodules := [];
    }
  }

  class Transformer {
    const parent: Module

    constructor (parent: Module)
      ensures this.parent == parent
    {
      this.parent := parent;
    }

    /**
     * The loop of transform_instance: bind each register of `v` on `i` by
     * name, in order, and append each compound register to the parent.
     */
    method BindRegisters(i: Module, v: seq<Csr>)
      modifies i, parent
      ensures i.attrs == BindAll(old(i.attrs), v)
      ensures parent.submodules == old(parent.submodules) + Compounds(v)
      ensures i.csrs == old(i.csrs) && parent.csrs == old(parent.csrs)
      ensures parent != i ==> parent.attrs == old(parent.attrs) && i.submodules == old(i.submodules)
    {
      var k := 0;
      while k < |v|
        invariant 0 <= k <= |v|
        invariant i.csrs == old(i.csrs) && parent.csrs == old(parent.csrs)
        invariant i.attrs == BindAll(old(i.attrs), v[..k])
        invariant parent.submodules == old(parent.submodules) + Compounds(v[..k])
        invariant parent != i ==> parent.attrs == old(parent.attrs) && i.submodules == old(i.submodules)
      {
        var c := v[k];
        BindStep(old(i.attrs), v, k);
        i.attrs := i.attrs[c.name := Bind(c)];
        if c.kind != Raw {
          parent.submodules := parent.submodules + [Bind(c)];
        }
        k := k + 1;
      }
      assert v[..|v|] == v;
    }

    /**
     * transform_instance(i): capture the registers, consume get_csrs, then
     * bind each register by name and add compound registers to the
     * parent. A second call on the same module finds get_csrs consumed and
     * changes nothing.
     */
    method TransformInstance(i: Module) returns (r: Result<(), TransformError>)
      modifies i, parent
      ensures old(i.csrs).None? ==> r == Failure(GetCsrsConsumed)
      ensures old(i.csrs).None? ==>
        i.csrs == old(i.csrs) && i.attrs == old(i.attrs) && i.submodules == old(i.submodules) &&
        parent.csrs == old(parent.csrs) && parent.attrs == old(parent.attrs) && parent.submodules == old(parent.submodules)
      ensures old(i.csrs).Some? ==>
        && r == Success(())
        && i.csrs == None
        && i.attrs == BindAll(old(i.attrs), old(i.csrs).value)
        && parent.submodules == old(parent.submodules) + Compounds(old(i.csrs).value)
      ensures old(i.csrs).Some? && parent != i ==> parent.attrs == old(parent.attrs) && parent.csrs == old(parent.csrs)
      ensures old(i.csrs).Some? && parent != i ==> i.submodules == old(i.submodules)
    {
      if i.csrs.None? {
        return Failure(GetCsrsConsumed);
      }
      var v := i.csrs.value;
      i.csrs := None;
      BindRegisters(i, v);
      r := Success(());
    }
  }

  /** A contiguous bit range of storage written by one staging signal. */
  datatype Lane = Lane(offset: nat, width: nat)

  /** The write lanes of a storage register: one per field, or the whole register when it has no fields. */
  function Lanes(c: Csr): (ls: seq<Lane>)
    ensures c.fields == [] ==> ls == [Lane(0, c.size)]
    ensures c.fields != [] ==> |ls| == |c.fields|
    ensures c.fields != [] ==> forall k :: 0 <= k < |ls| ==> ls[k] == Lane(c.fields[k].offset, c.fields[k].size)
  {
    if c.fields == [] then [Lane(0, c.size)]
    else seq(|c.fields|, k requires 0 <= k < |c.fields| => Lane(c.fields[k].offset, c.fields[k].size))
  }

  /**
   * storage[off:off + |v|].eq(v) for a bit vector `s` stored least
   * significant bit first. As in migen, the slice is clipped to the width
   * of `s` and the bits of `v` beyond it are dropped.
   */
  function WriteSlice(s: seq<bool>, off: nat, v: seq<bool>): (r: seq<bool>)
    ensures |r| == |s|
    ensures forall i :: 0 <= i < |s| ==> r[i] == if off <= i < off + |v| then v[i - off] else s[i]
  {
    if off >= |s| then s
    else
      var end := if off + |v| <= |s| then off + |v| else |s|;
      s[..off] + v[..end - off] + s[end..]
  }

  /** The staging values fit their lanes: each staging signal is exactly as wide as its lane. */
  predicate Fits(lanes: seq<Lane>, values: seq<seq<bool>>)
  {
    |values| == |lanes| && forall k :: 0 <= k < |lanes| ==> |values[k]| == lanes[k].width
  }

  /** The value of storage after one commit: the lanes' slice writes in the order the transform added them. */
  function Commit(s: seq<bool>, lanes: seq<Lane>, values: seq<seq<bool>>): (r: seq<bool>)
    requires Fits(lanes, values)
    ensures |r| == |s|
  {
    if lanes == [] then s
    else WriteSlice(Commit(s, lanes[..|lanes| - 1], values[..|lanes| - 1]), lanes[|lanes| - 1].offset, values[|lanes| - 1])
  }

  predicate Covers(l: Lane, i: nat)
  {
    l.offset <= i < l.offset + l.width
  }

  /**
   * One commit, bit by bit: a bit outside every lane keeps its value; a
   * bit inside some lane takes the matching bit of the last lane that
   * covers it.
   */
  lemma {:induction false} CommitBits(s: seq<bool>, lanes: seq<Lane>, values: seq<seq<bool>>, i: nat)
    requires Fits(lanes, values)
    requires i < |s|
    ensures (forall k :: 0 <= k < |lanes| ==> !Covers(lanes[k], i)) ==> Commit(s, lanes, values)[i] == s[i]
    ensures forall k :: 0 <= k < |lanes| && Covers(lanes[k], i) && (forall m :: k < m < |lanes| ==> !Covers(lanes[m], i)) ==>
      Commit(s, lanes, values)[i] == values[k][i - lanes[k].offset]
  {
    if lanes != [] {
      var n := |lanes| - 1;
      var pl, pv := lanes[..n], values[..n];
      var p := Commit(s, pl, pv);
      CommitBits(s, pl, pv, i);
      assert Commit(s, lanes, values)[i] == if Covers(lanes[n], i) then values[n][i - lanes[n].offset] else p[i];
      forall k | 0 <= k < |lanes| && Covers(lanes[k], i) && (forall m :: k < m < |lanes| ==> !Covers(lanes[m], i))
        ensures Commit(s, lanes, values)[i] == values[k][i - lanes[k].offset]
      {
        if k < n {
          assert pl[k] == lanes[k] && pv[k] == values[k];
          assert forall m :: k < m < |pl| ==> pl[m] == lanes[m];
        }
      }
      if forall k :: 0 <= k < |lanes| ==> !Covers(lanes[k], i) {
        assert forall k :: 0 <= k < |pl| ==> pl[k] == lanes[k];
      }
    }
  }

  predicate Disjoint(lanes: seq<Lane>)
  {
    forall j, k :: 0 <= j < k < |lanes| ==> lanes[j].offset + lanes[j].width <= lanes[k].offset || lanes[k].offset + lanes[k].width <= lanes[j].offset
  }

  /**
   * With non-overlapping fields, a commit writes each field's staging value
   * into exactly that field's bit range and leaves every other bit alone.
   */
  lemma FieldCommit(s: seq<bool>, lanes: seq<Lane>, values: seq<seq<bool>>)
    requires Fits(lanes, values) && Disjoint(lanes)
    ensures forall k, i :: 0 <= k < |lanes| && lanes[k].offset <= i < lanes[k].offset + lanes[k].width && i < |s| ==>
      Commit(s, lanes, values)[i] == values[k][i - lanes[k].offset]
    ensures forall i :: 0 <= i < |s| && (forall k :: 0 <= k < |lanes| ==> !Covers(lanes[k], i)) ==>
      Commit(s, lanes, values)[i] == s[i]
  {
    forall i | 0 <= i < |s|
      ensures (forall k :: 0 <= k < |lanes| ==> !Covers(lanes[k], i)) ==> Commit(s, lanes, values)[i] == s[i]
      ensures forall k :: 0 <= k < |lanes| && Covers(lanes[k], i) ==> Commit(s, lanes, values)[i] == values[k][i - lanes[k].offset]
    {
      CommitBits(s, lanes, values, i);
    }
  }

  /** Without fields, a commit loads the whole of `dat_w` into storage. */
  lemma WholeCommit(s: seq<bool>, datW: seq<bool>)
    requires |datW| == |s|
    ensures Commit(s, [Lane(0, |s|)], [datW]) == datW
  {
    var lanes, values := [Lane(0, |s|)], [datW];
    assert Commit(s, lanes[..0], values[..0]) == s;
  }

  /** The widths of the staging signals the transform creates. */
  function StagingWidths(st: Staging): (ws: seq<nat>)
    ensures st.Whole? ==> ws == [st.width]
    ensures st.PerField? ==> |ws| == |st.latches| && forall k :: 0 <= k < |ws| ==> ws[k] == st.latches[k].width
  {
    match st
    case Whole(w) => [w]
    case PerField(ls) => seq(|ls|, k requires 0 <= k < |ls| => ls[k].width)
  }

  /**
   * The staging signals Bind creates for a storage register are exactly as
   * wide as the bit ranges they are committed into, one per lane.
   */
  lemma StagingFitsLanes(c: Csr)
    requires c.kind == Storage
    ensures Bind(c).commit.Some?
    ensures StagingWidths(Bind(c).commit.value.staging) == seq(|Lanes(c)|, k requires 0 <= k < |Lanes(c)| => Lanes(c)[k].width)
  {
  }

  /**
   * A storage register once the transform has bound it: `storage` is its
   * value, `applied` is the renamed original strobe `re0`. Each call of
   * Step is one clock edge with the owner driving the new strobe `re` and
   * the staging values.
   */
  class StorageRegister {
    const bound: Bound
    const lanes: seq<Lane>
    var storage: seq<bool>
    var applied: bool

    ghost predicate Valid()
      reads this
    {
      bound.csr.kind == Storage && lanes == Lanes(bound.csr) && |storage| == bound.csr.size
    }

    constructor (b: Bound, reset: seq<bool>)
      requires b.csr.kind == Storage && |reset| == b.csr.size
      ensures Valid() && bound == b && storage == reset && !applied
    {
      bound := b;
      lanes := Lanes(b.csr);
      storage := reset;
      applied := false;
    }

    /**
     * One clock edge: `re0` takes the value `re` had, and when `re` is high
     * every staging value is written into its bit range, in field order.
     * When `re` is low storage is left as it was.
     */
    method Step(re: bool, staging: seq<seq<bool>>)
      requires Valid() && Fits(lanes, staging)
      modifies this
      ensures Valid()
      ensures applied == re
      ensures storage == if re then Commit(old(storage), lanes, staging) else old(storage)
    {
      applied := re;
      if re {
        var k := 0;
        ghost var s0 := storage;
        while k < |lanes|
          invariant 0 <= k <= |lanes|
          invariant applied == re
          invariant Fits(lanes[..k], staging[..k])
          invariant storage == Commit(s0, lanes[..k], staging[..k])
        {
          assert lanes[..k + 1][..k] == lanes[..k] && staging[..k + 1][..k] == staging[..k];
          storage := WriteSlice(storage, lanes[k].offset, staging[k]);
          k := k + 1;
        }
        assert lanes[..k] == lanes && staging[..k] == staging;
      }
    }
  }
}
