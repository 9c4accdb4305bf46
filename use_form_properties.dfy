/**
 * An independent description of the bound attributes ("the last check of
 * each kind wins") and the lemmas tying `register`'s reduce to it.
 */
module UseFormProperties {
  import opened Wrappers
  import opened UseForm

  /** Some check in `cs` has the given kind. */
  ghost predicate HasKind(cs: seq<Check>, kind: string) {
    exists i :: 0 <= i < |cs| && cs[i].kind == kind
  }

  /** `cs[i]` has the given kind and no later check does. */
  ghost predicate IsLastOfKind(cs: seq<Check>, kind: string, i: int) {
    && 0 <= i < |cs|
    && cs[i].kind == kind
    && forall j :: i < j < |cs| ==> cs[j].kind != kind
  }

  /** The value of the last check of the given kind, if there is one. */
  function LastOfKind(cs: seq<Check>, kind: string): (r: Option<int>)
    ensures r.None? <==> !HasKind(cs, kind)
    ensures forall i :: IsLastOfKind(cs, kind, i) ==> r == Some(cs[i].value)
    decreases |cs|
  {
    if cs == [] then None
    else if cs[|cs| - 1].kind == kind then Some(cs[|cs| - 1].value)
    else LastOfKind(cs[..|cs| - 1], kind)
  }

  /** A one-key record when `v` is present, the empty record otherwise. */
  function Entry(key: string, v: Option<int>): Attrs {
    match v
    case Some(x) => map[key := N(x)]
    case None => map[]
  }

  /**
   * The bound attributes described directly: the lower key carries the value
   * of the last "min" check, the upper key that of the last "max" check.
   */
  function BoundsSpec(isString: bool, cs: seq<Check>): Attrs {
    Entry(if isString then "minlength" else "min", LastOfKind(cs, "min"))
      + Entry(if isString then "maxlength" else "max", LastOfKind(cs, "max"))
  }

  /** Folding one more check is one more reduce step. */
  lemma {:induction false} FoldSnoc(isString: bool, acc: Attrs, cs: seq<Check>, c: Check)
    ensures FoldChecks(isString, acc, cs + [c]) == ApplyCheck(isString, FoldChecks(isString, acc, cs), c)
    decreases |cs|
  {
    if cs == [] {
      assert [] + [c] == [c];
      assert [c][1..] == [];
    } else {
      assert (cs + [c])[0] == cs[0];
      assert (cs + [c])[1..] == cs[1..] + [c];
      FoldSnoc(isString, ApplyCheck(isString, acc, cs[0]), cs[1..], c);
    }
  }

  /** `BoundsSpec` takes the same step as the reduce when one check is appended. */
  lemma BoundsSpecSnoc(isString: bool, cs: seq<Check>, c: Check)
    ensures BoundsSpec(isString, cs + [c]) == ApplyCheck(isString, BoundsSpec(isString, cs), c)
  {
  }

  /** The reduce from the empty record computes exactly `BoundsSpec`. */
  lemma {:induction false} FoldMatchesSpec(isString: bool, cs: seq<Check>)
    ensures FoldChecks(isString, map[], cs) == BoundsSpec(isString, cs)
    decreases |cs|
  {
    if cs != [] {
      var pre, c := cs[..|cs| - 1], cs[|cs| - 1];
      assert cs == pre + [c];
      FoldMatchesSpec(isString, pre);
      FoldSnoc(isString, map[], pre, c);
      BoundsSpecSnoc(isString, pre, c);
    }
  }

  /**
   * A known field carries `minlength` exactly when it is a string field with
   * a "min" check, `min` exactly when it is another field with a "min" check,
   * and likewise `maxlength`/`max` for "max" checks.
   */
  lemma RegisterBoundKeys(schema: Schema, name: string)
    requires name in schema
    ensures var r, d := Register(schema, name), schema[name];
      && ("minlength" in r <==> IsString(d) && HasKind(CheckList(d), "min"))
      && ("min" in r <==> !IsString(d) && HasKind(CheckList(d), "min"))
      && ("maxlength" in r <==> IsString(d) && HasKind(CheckList(d), "max"))
      && ("max" in r <==> !IsString(d) && HasKind(CheckList(d), "max"))
  {
    FoldMatchesSpec(IsString(schema[name]), CheckList(schema[name]));
  }

  /**
   * When several checks share a kind, the last of them in list order gives
   * the emitted bound.
   */
  lemma LastCheckWins(schema: Schema, name: string, i: int)
    requires name in schema
    requires var cs := CheckList(schema[name]);
      0 <= i < |cs| && (cs[i].kind == "min" || cs[i].kind == "max") && IsLastOfKind(cs, cs[i].kind, i)
    ensures var r, d := Register(schema, name), schema[name];
      var c := CheckList(d)[i];
      var key := if c.kind == "min" then (if IsString(d) then "minlength" else "min")
                 else (if IsString(d) then "maxlength" else "max");
      key in r && r[key] == N(c.value)
  {
    FoldMatchesSpec(IsString(schema[name]), CheckList(schema[name]));
  }

  /** A check of any kind other than "min" or "max", anywhere in the list, adds nothing. */
  lemma {:induction false} OtherChecksAddNothing(isString: bool, acc: Attrs, pre: seq<Check>, c: Check, post: seq<Check>)
    requires c.kind != "min" && c.kind != "max"
    ensures FoldChecks(isString, acc, pre + [c] + post) == FoldChecks(isString, acc, pre + post)
    decreases |pre|
  {
    if pre == [] {
      assert pre + [c] + post == [c] + post;
      assert ([c] + post)[1..] == post;
      assert pre + post == post;
    } else {
      assert (pre + [c] + post)[0] == pre[0] && (pre + post)[0] == pre[0];
      assert (pre + [c] + post)[1..] == pre[1..] + [c] + post;
      assert (pre + post)[1..] == pre[1..] + post;
      OtherChecksAddNothing(isString, ApplyCheck(isString, acc, pre[0]), pre[1..], c, post);
    }
  }

  /**
   * A field whose checks are absent, or hold no "min" or "max" check, gets
   * only `name`, `required` and `type`.
   */
  lemma NoBoundChecksNoBounds(schema: Schema, name: string)
    requires name in schema
    requires !HasKind(CheckList(schema[name]), "min") && !HasKind(CheckList(schema[name]), "max")
    ensures Register(schema, name).Keys == BaseKeys()
  {
    RegisterBoundKeys(schema, name);
  }

  /** The record of a known field is `name`, `required`, `type` and exactly the spec bounds. */
  lemma RegisterIsBaseAndBounds(schema: Schema, name: string)
    requires name in schema
    ensures var d := schema[name];
      Register(schema, name) - BaseKeys() == BoundsSpec(IsString(d), CheckList(d))
  {
    var d := schema[name];
    FoldMatchesSpec(IsString(d), CheckList(d));
  }
}
