/**
 * Spec extraction in the gyudon package: the per-field descriptions that
 * parseCommand derives from the exported fields of a commander's struct.
 */
module Specs {
  import opened Commanders

  /** A field description: the field's name and its help text. */
  datatype Spec = Spec(name: string, help: string)

  /** The value of the field's `help` tag, or "" when the tag is absent. */
  function HelpTag(f: Field): (help: string)
    ensures "help" in f.tags ==> help == f.tags["help"]
    ensures "help" !in f.tags ==> help == ""
  {
    if "help" in f.tags then f.tags["help"] else ""
  }

  /** The specs of the exported fields, in declaration order. */
  function SpecsOf(fields: seq<Field>): (r: seq<Spec>)
    ensures |r| <= |fields|
  {
    if fields == [] then []
    else (if fields[0].exported then [Spec(fields[0].name, HelpTag(fields[0]))] else []) + SpecsOf(fields[1..])
  }

  /** The positions of the exported fields, increasing, each exported position listed. */
  function ExportedPositions(fields: seq<Field>): (r: seq<nat>)
    ensures forall k :: 0 <= k < |r| ==> r[k] < |fields| && fields[r[k]].exported
    ensures forall k, l :: 0 <= k < l < |r| ==> r[k] < r[l]
    ensures forall i :: 0 <= i < |fields| && fields[i].exported ==> i in r
  {
    if fields == [] then []
    else
      var n := |fields| - 1;
      ExportedPositions(fields[..n]) + (if fields[n].exported then [n] else [])
  }

  /** Extraction distributes over concatenation of field lists: field order is kept. */
  lemma {:induction false} SpecsOfAppend(a: seq<Field>, b: seq<Field>)
    ensures SpecsOf(a + b) == SpecsOf(a) + SpecsOf(b)
  {
    if a == [] {
      assert a + b == b;
    } else {
      var head := if a[0].exported then [Spec(a[0].name, HelpTag(a[0]))] else [];
      assert (a + b)[0] == a[0] && (a + b)[1..] == a[1..] + b;
      assert SpecsOf(a + b) == head + SpecsOf(a[1..] + b);
      SpecsOfAppend(a[1..], b);
      assert SpecsOf(a) == head + SpecsOf(a[1..]);
    }
  }

  /**
   * One spec per exported field, in declaration order: the k-th spec is named
   * after the k-th exported field and carries that field's help tag.
   */
  lemma {:induction false} SpecsOfExportedFields(fields: seq<Field>)
    ensures |SpecsOf(fields)| == |ExportedPositions(fields)|
    ensures forall k :: 0 <= k < |SpecsOf(fields)| ==>
      var f := fields[ExportedPositions(fields)[k]];
      SpecsOf(fields)[k] == Spec(f.name, HelpTag(f))
  {
    if fields != [] {
      var n := |fields| - 1;
      SpecsOfExportedFields(fields[..n]);
      assert fields == fields[..n] + [fields[n]];
      ExportedFieldsSnoc(fields[..n], fields[n]);
    }
  }

  /** The step of SpecsOfExportedFields: the correspondence survives adding one field at the end. */
  lemma ExportedFieldsSnoc(init: seq<Field>, last: Field)
    requires |SpecsOf(init)| == |ExportedPositions(init)|
    requires forall k :: 0 <= k < |SpecsOf(init)| ==>
      var f := init[ExportedPositions(init)[k]];
      SpecsOf(init)[k] == Spec(f.name, HelpTag(f))
    ensures var fields := init + [last];
      |SpecsOf(fields)| == |ExportedPositions(fields)|
      && forall k :: 0 <= k < |SpecsOf(fields)| ==>
        var f := fields[ExportedPositions(fields)[k]];
        SpecsOf(fields)[k] == Spec(f.name, HelpTag(f))
  {
    var fields := init + [last];
    var n := |init|;
    assert fields[..n] == init;
    SpecsOfSnoc(init, last);
    var s, p := SpecsOf(fields), ExportedPositions(fields);
    var s0, p0 := SpecsOf(init), ExportedPositions(init);
    assert p == p0 + (if last.exported then [n] else []);
    forall k | 0 <= k < |s|
      ensures s[k] == Spec(fields[p[k]].name, HelpTag(fields[p[k]]))
    {
      if k < |s0| {
        assert s[k] == s0[k] && p[k] == p0[k];
        assert fields[p[k]] == init[p[k]];
      } else {
        assert s[k] == Spec(last.name, HelpTag(last)) && p[k] == n;
      }
    }
  }

  /** Extraction over fields followed by f: the specs so far, then f's spec if f is exported. */
  lemma SpecsOfSnoc(init: seq<Field>, f: Field)
    ensures SpecsOf(init + [f]) == SpecsOf(init) + (if f.exported then [Spec(f.name, HelpTag(f))] else [])
  {
    SpecsOfAppend(init, [f]);
    assert SpecsOf([f]) == (if f.exported then [Spec(f.name, HelpTag(f))] else []) + SpecsOf([]);
  }

  /** Removing an unexported field leaves the spec list unchanged: such fields produce no spec. */
  lemma {:induction false} UnexportedFieldIsSkipped(fields: seq<Field>, i: nat)
    requires i < |fields| && !fields[i].exported
    ensures SpecsOf(fields[..i] + fields[i + 1..]) == SpecsOf(fields)
  {
    assert fields == fields[..i] + ([fields[i]] + fields[i + 1..]);
    SpecsOfAppend(fields[..i], [fields[i]] + fields[i + 1..]);
    SpecsOfAppend(fields[..i], fields[i + 1..]);
    assert ([fields[i]] + fields[i + 1..])[1..] == fields[i + 1..];
  }
}
