/** The json-merge tool: read and parse the target and the source document,
    build `Object.assign({}, source, target)`, and write it over the target. */
module JsonMerge {
  import opened Wrappers
  import opened AssocList
  import opened Json
  import opened ObjectAssign

  /** The object the tool writes back: a fresh object onto which the source's
      properties and then the target's properties are copied. */
  function Merge(target: Value, source: Value): (r: Value) {
    Obj(Assign([], [source, target]))
  }

  /** The properties of `Object.assign({}, s, t)` once ToObject has turned
      the source and the target into their own property lists `s` and `t`. */
  function MergeProps(t: Props, s: Props): (r: Props) {
    CopyProps(CopyProps([], s), t)
  }

  /** The merged object holds the two successive copies of the source's and
      then the target's own properties onto an empty object. */
  lemma MergeUnfold(target: Value, source: Value)
    ensures Merge(target, source).members == MergeProps(OwnProps(target), OwnProps(source))
  {
    var s, t := OwnProps(source), OwnProps(target);
    assert [source, target][1..] == [target];
    assert [target][1..] == [];
    calc {
      Assign([], [source, target]);
      Assign(CopyProps([], s), [target]);
      Assign(CopyProps(CopyProps([], s), t), []);
      CopyProps(CopyProps([], s), t);
    }
  }

  /** The source's properties in source order, a name the target also has
      carrying the target's value. */
  function Overlay(s: Props, t: Props): (r: Props)
    ensures Keys(r) == Keys(s)
    decreases |s|
  {
    if |s| == 0 then []
    else
      var k := s[0].0;
      var v := match Get(t, k) case Some(w) => w case None => s[0].1;
      KeysCons((k, v), Overlay(s[1..], t));
      [(k, v)] + Overlay(s[1..], t)
  }

  /** Reference definition of the merged properties, written from the
      promised outcome rather than from the copying steps: the overlaid
      source properties, followed by the target's remaining properties in
      target order. */
  function Reference(t: Props, s: Props): (r: Props) {
    Overlay(s, t) + Without(t, Keys(s))
  }

  /** A name of the target holds the target's value, whole, even when the
      source has the name too; any other name holds the source's value. */
  // Not an induction proof; automatic induction is switched off because
  // induction hypotheses over the two lists only slow the solver down.
  lemma {:induction false} MergeLookup(t: Props, s: Props, k: string)
    requires UniqueKeys(t) && UniqueKeys(s)
    ensures Get(MergeProps(t, s), k) ==
      if k in Keys(t) then Get(t, k) else Get(s, k)
  {
    CopyIntoEmpty(s);
    CopyPropsGet(s, t, k);
  }

  /** The merged properties have no repeated name, and their names are
      exactly those of the target and the source together. */
  // Not an induction proof; automatic induction is switched off because
  // induction hypotheses over the two lists only slow the solver down.
  lemma {:induction false} MergeDomain(t: Props, s: Props)
    requires UniqueKeys(t) && UniqueKeys(s)
    ensures UniqueKeys(MergeProps(t, s))
    ensures forall k :: k in Keys(MergeProps(t, s)) <==> k in Keys(t) || k in Keys(s)
  {
    CopyIntoEmpty(s);
    CopyPropsUnique(s, t);
    forall k
      ensures k in Keys(MergeProps(t, s)) <==> k in Keys(t) || k in Keys(s)
    {
      MergeLookup(t, s, k);
      GetNone(MergeProps(t, s), k);
      GetNone(t, k);
      GetNone(s, k);
    }
  }

  /** The merge is shallow: when both documents hold an object under the same
      name, the result holds the target's object unchanged, and no member of
      the source's object that the target's object lacks appears in it. */
  lemma MergeShallow(t: Props, s: Props, k: string, a: Props, b: Props)
    requires UniqueKeys(t) && UniqueKeys(s)
    requires Get(t, k) == Some(Obj(a))
    requires Get(s, k) == Some(Obj(b))
    ensures Get(MergeProps(t, s), k) == Some(Obj(a))
    ensures forall n :: n in Keys(b) && n !in Keys(a) ==>
      n !in Keys(Get(MergeProps(t, s), k).value.members)
  {
    MergeLookup(t, s, k);
    GetNone(t, k);
  }

  /** The reference has no repeated name. */
  lemma ReferenceUnique(t: Props, s: Props)
    requires UniqueKeys(t) && UniqueKeys(s)
    ensures UniqueKeys(Reference(t, s))
  {
    var rest := Without(t, Keys(s));
    WithoutUnique(t, Keys(s));
    UniqueSameKeys(s, Overlay(s, t));
    forall k | k in Keys(Overlay(s, t))
      ensures k !in Keys(rest)
    {
      if k in Keys(rest) {
        WithoutKeys(t, Keys(s), k);
      }
    }
    UniqueAppend(Overlay(s, t), rest);
  }

  /** Looking up a name in the overlay finds the target's value for a
      shared name, the source's value for a source-only name, and nothing
      for any other name. */
  lemma {:induction false} OverlayGet(s: Props, t: Props, k: string)
    requires UniqueKeys(s)
    ensures Get(Overlay(s, t), k) ==
      if k !in Keys(s) then None
      else if k in Keys(t) then Get(t, k)
      else Get(s, k)
    decreases |s|
  {
    if |s| > 0 {
      var r := Overlay(s, t);
      assert r[0].0 == s[0].0 && r[1..] == Overlay(s[1..], t);
      OverlayGet(s[1..], t, k);
      GetNone(t, s[0].0);
    }
  }

  /** The reference answers every lookup the way the merge does: the
      target's value for a target name, the source's value otherwise. */
  // Not an induction proof; automatic induction is switched off because
  // induction hypotheses over the two lists only slow the solver down.
  lemma {:induction false} ReferenceLookup(t: Props, s: Props, k: string)
    requires UniqueKeys(t) && UniqueKeys(s)
    ensures Get(Reference(t, s), k) ==
      if k in Keys(t) then Get(t, k) else Get(s, k)
  {
    var rest := Without(t, Keys(s));
    assert Get(Reference(t, s), k) ==
      if k in Keys(s) then Get(Overlay(s, t), k) else Get(rest, k) by {
      GetAppend(Overlay(s, t), rest, k);
    }
    assert Get(rest, k) == if k in Keys(s) then None else Get(t, k) by {
      WithoutGet(t, Keys(s), k);
    }
    OverlayGet(s, t, k);
    GetNone(t, k);
    GetNone(s, k);
  }

  /** The merged properties list the source's names first, in source order,
      a shared name keeping the source's position but the target's value;
      the target's other names follow in target order. */
  lemma MergeOrder(t: Props, s: Props)
    requires UniqueKeys(t) && UniqueKeys(s)
    ensures MergeProps(t, s) == Reference(t, s)
  {
    var r := MergeProps(t, s);
    var expected := Reference(t, s);
    assert UniqueKeys(r) by {
      MergeDomain(t, s);
    }
    assert UniqueKeys(expected) by {
      ReferenceUnique(t, s);
    }
    assert Keys(r) == Keys(expected) by {
      CopyIntoEmpty(s);
      CopyPropsKeys(s, t);
      KeysAppend(Overlay(s, t), Without(t, Keys(s)));
    }
    forall k
      ensures Get(r, k) == Get(expected, k)
    {
      MergeLookup(t, s, k);
      ReferenceLookup(t, s, k);
    }
    Extensional(r, expected);
  }

  /** Read as finite maps, the merge is the map union in which the target's
      entries override the source's. */
  // Not an induction proof; automatic induction is switched off because
  // induction hypotheses over the two lists only slow the solver down.
  lemma {:induction false} MergeAsMapUnion(t: Props, s: Props)
    requires UniqueKeys(t) && UniqueKeys(s)
    ensures ToMap(MergeProps(t, s)) == ToMap(s) + ToMap(t)
  {
    var r := MergeProps(t, s);
    forall k
      ensures k in ToMap(r) <==> k in ToMap(s) + ToMap(t)
      ensures k in ToMap(r) ==> ToMap(r)[k] == (ToMap(s) + ToMap(t))[k]
    {
      MergeLookup(t, s, k);
      GetNone(MergeProps(t, s), k);
      GetNone(t, k);
      GetNone(s, k);
    }
  }

  /** For parsed documents of any kind, the merged object is the reference:
      the source's names first in source order (shared names carrying the
      target's value), then the target's other names in target order. */
  lemma MergeMatchesReference(target: Value, source: Value)
    requires WellFormed(target) && WellFormed(source)
    ensures Merge(target, source).members == Reference(OwnProps(target), OwnProps(source))
  {
    MergeUnfold(target, source);
    OwnPropsWellFormed(target);
    OwnPropsWellFormed(source);
    MergeOrder(OwnProps(target), OwnProps(source));
  }

  /** Merging the same source into an already merged object changes nothing,
      so running the tool a second time leaves the target as the first run
      wrote it. */
  lemma MergeIdempotent(target: Value, source: Value)
    requires WellFormed(target) && WellFormed(source)
    ensures Merge(Merge(target, source), source) == Merge(target, source)
  {
    var s, t := OwnProps(source), OwnProps(target);
    var merged := Merge(target, source);
    OwnPropsWellFormed(target);
    OwnPropsWellFormed(source);
    MergeDomain(t, s);
    assert merged.members == CopyProps(s, t) by {
      MergeUnfold(target, source);
      CopyIntoEmpty(s);
    }
    assert Merge(merged, source).members == CopyProps(s, merged.members) by {
      MergeUnfold(merged, source);
      CopyIntoEmpty(s);
    }
    CopyPropsIdempotent(s, t);
  }

  /** With a source that contributes no properties (an empty object, null, a
      number, a boolean, an empty string or array), the result is the
      target's own properties. */
  lemma MergeEmptySource(target: Value, source: Value)
    requires WellFormed(target)
    requires OwnProps(source) == []
    ensures Merge(target, source) == Obj(OwnProps(target))
    ensures target.Obj? ==> Merge(target, source) == target
  {
    MergeUnfold(target, source);
    OwnPropsWellFormed(target);
    CopyIntoEmpty(OwnProps(target));
  }

  /** With a target that contributes no properties, the result is the
      source's own properties. */
  lemma MergeEmptyTarget(target: Value, source: Value)
    requires WellFormed(source)
    requires OwnProps(target) == []
    ensures Merge(target, source) == Obj(OwnProps(source))
    ensures source.Obj? ==> Merge(target, source) == source
  {
    MergeUnfold(target, source);
    OwnPropsWellFormed(source);
    CopyIntoEmpty(OwnProps(source));
  }

  /** Merging values `JSON.parse` can return gives a value `JSON.parse` can
      return: no object at any depth repeats a name. */
  lemma MergeWellFormed(target: Value, source: Value)
    requires WellFormed(target) && WellFormed(source)
    ensures WellFormed(Merge(target, source))
  {
    var s, t := OwnProps(source), OwnProps(target);
    MergeUnfold(target, source);
    OwnPropsWellFormed(target);
    OwnPropsWellFormed(source);
    MergePropsWellFormed(t, s);
  }

  /** Merging property lists with unique names and well-formed values gives
      such a list again. */
  lemma MergePropsWellFormed(t: Props, s: Props)
    requires UniqueKeys(t) && AllWellFormed(t)
    requires UniqueKeys(s) && AllWellFormed(s)
    ensures UniqueKeys(MergeProps(t, s)) && AllWellFormed(MergeProps(t, s))
  {
    var r := MergeProps(t, s);
    MergeDomain(t, s);
    CopyIntoEmpty(s);
    forall e | e in r
      ensures WellFormed(e.1)
    {
      CopyPropsMember(s, t, e);
    }
  }

  /** A target `{"a": 1, "b": 2}` merged with a source `{"b": 9, "c": 3}`
      keeps the target's `b` and gains the source's `c`; creation order puts
      the source's names first. */
  lemma MergeExample()
    ensures Merge(Obj([("a", Num(1.0)), ("b", Num(2.0))]),
                  Obj([("b", Num(9.0)), ("c", Num(3.0))]))
         == Obj([("b", Num(2.0)), ("c", Num(3.0)), ("a", Num(1.0))])
  {
    MergeUnfold(Obj([("a", Num(1.0)), ("b", Num(2.0))]),
                Obj([("b", Num(9.0)), ("c", Num(3.0))]));
    ExampleSourceCopy();
  }

  /** Copying the example source onto an empty object reproduces it. */
  lemma ExampleSourceCopy()
    ensures CopyProps([], [("b", Num(9.0)), ("c", Num(3.0))])
         == [("b", Num(9.0)), ("c", Num(3.0))]
  {
    var s: Props := [("b", Num(9.0)), ("c", Num(3.0))];
    assert s[1..] == [("c", Num(3.0))];
    assert Put([("b", Num(9.0))], "c", Num(3.0)) == s;
    assert CopyProps([], s) == CopyProps([("b", Num(9.0))], s[1..]);
  }

  /** Why the tool writes nothing. */
  datatype MergeError =
    | TargetUnreadable
    | TargetMalformed
    | SourceUnreadable
    | SourceMalformed

  /** One run of the tool. `targetFile` and `sourceFile` are the file contents
      (`None` when reading throws) and `parse` stands for `JSON.parse` (`None`
      when it throws). The steps run in the order of the script, and the
      first one that throws ends the run; only a `Success` is written back
      over the target file. */
  method MergeFiles(targetFile: Option<string>, sourceFile: Option<string>,
                    parse: string -> Option<Value>)
    returns (written: Result<Value, MergeError>)
    ensures written.Success? <==>
      && targetFile.Some? && parse(targetFile.value).Some?
      && sourceFile.Some? && parse(sourceFile.value).Some?
    ensures targetFile.None? ==> written == Failure(TargetUnreadable)
    ensures targetFile.Some? && parse(targetFile.value).None? ==>
      written == Failure(TargetMalformed)
    ensures targetFile.Some? && parse(targetFile.value).Some? && sourceFile.None? ==>
      written == Failure(SourceUnreadable)
    ensures targetFile.Some? && parse(targetFile.value).Some? && sourceFile.Some? &&
            parse(sourceFile.value).None? ==>
              written == Failure(SourceMalformed)
    ensures written.Success? ==>
      var t, s := parse(targetFile.value).value, parse(sourceFile.value).value;
      && written.value.Obj?
      && (WellFormed(t) && WellFormed(s) ==>
            && WellFormed(written.value)
            && written.value.members == Reference(OwnProps(t), OwnProps(s))
            && forall k :: Get(written.value.members, k) ==
                 if k in Keys(OwnProps(t)) then Get(OwnProps(t), k) else Get(OwnProps(s), k))
  {
    if targetFile.None? {
      return Failure(TargetUnreadable);
    }
    var target := parse(targetFile.value);
    if target.None? {
      return Failure(TargetMalformed);
    }
    if sourceFile.None? {
      return Failure(SourceUnreadable);
    }
    var source := parse(sourceFile.value);
    if source.None? {
      return Failure(SourceMalformed);
    }
    var merged := Merge(target.value, source.value);
    if WellFormed(target.value) && WellFormed(source.value) {
      MergeWellFormed(target.value, source.value);
      MergeMatchesReference(target.value, source.value);
      forall k
        ensures Get(merged.members, k) ==
          if k in Keys(OwnProps(target.value)) then Get(OwnProps(target.value), k)
          else Get(OwnProps(source.value), k)
      {
        MergeUnfold(target.value, source.value);
        OwnPropsWellFormed(target.value);
        OwnPropsWellFormed(source.value);
        MergeLookup(OwnProps(target.value), OwnProps(source.value), k);
      }
    }
    written := Success(merged);
  }
}
