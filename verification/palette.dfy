/** The colour palette of palette.go: the site's palette, falling back to a
    fixed default when no primary colour is set, written as CSS custom
    properties of the `:root` rule, one line per non-empty colour. */
module Palette {
  import opened Common

  /** `ColorPalette` of module.go. */
  datatype ColorPalette = ColorPalette(primary: string, secondary: string, tertiary: string, quaternary: string,
                                       gray: string, selection: string, hover: string, success: string,
                                       error: string)

  const DefaultPalette: ColorPalette :=
    ColorPalette("#ffffff", "#7c3aed", "#94a3b8", "#1e293b", "#f8fafc", "#a78bfa", "#6d28d9", "#10b981", "#ef4444")

  /** The CSS variable of each field, in the order they are written. */
  const VarNames: seq<string> := ["--color-primary", "--color-secondary", "--color-tertiary", "--color-quaternary",
                                  "--color-gray", "--color-selection", "--color-hover", "--color-success",
                                  "--color-error"]

  const RootOpen: string := ":root {\n    /* Colors */\n"
  const RootClose: string := "}\n"

  /** The fields of a palette, in the order they are written. */
  function Values(p: ColorPalette): (vs: seq<string>)
    ensures |vs| == |VarNames|
  {
    [p.primary, p.secondary, p.tertiary, p.quaternary, p.gray, p.selection, p.hover, p.success, p.error]
  }

  /** The palette that is rendered: without a primary colour the whole
      default palette replaces it, whatever its other fields hold. */
  function Effective(p: ColorPalette): (e: ColorPalette)
    ensures e.primary != ""
    ensures p.primary != "" ==> e == p
    ensures p.primary == "" ==> forall i :: 0 <= i < |VarNames| ==> Values(e)[i] != ""
  {
    if p.primary == "" then DefaultPalette else p
  }

  /** One declaration line. */
  function VarLine(name: string, value: string): string {
    "    " + name + ": " + value + ";\n"
  }

  /** `writeVar`: the declaration line for a non-empty value, nothing for an
      empty one. */
  function WriteVar(name: string, value: string): (w: string)
    ensures w == "" <==> value == ""
    ensures value != "" ==> w == VarLine(name, value)
  {
    if value != "" then VarLine(name, value) else ""
  }

  /** What the nine `writeVar` calls write, in call order. */
  function Writes(names: seq<string>, values: seq<string>): (ws: seq<string>)
    requires |names| == |values|
    ensures |ws| == |names|
    decreases |names|
  {
    if |names| == 0 then [] else [WriteVar(names[0], values[0])] + Writes(names[1..], values[1..])
  }

  /** How many of the values are non-empty. */
  function NonEmptyCount(values: seq<string>): nat
    decreases |values|
  {
    if |values| == 0 then 0 else (if values[0] != "" then 1 else 0) + NonEmptyCount(values[1..])
  }

  /** The declaration lines of the non-empty values, in order: the
      reference the rendering is measured against. */
  function Present(names: seq<string>, values: seq<string>): (r: seq<string>)
    requires |names| == |values|
    ensures |r| == NonEmptyCount(values)
    ensures forall k :: 0 <= k < |r| ==>
              exists j :: 0 <= j < |names| && values[j] != "" && r[k] == VarLine(names[j], values[j])
    decreases |names|
  {
    if |names| == 0 then []
    else
      var rest := Present(names[1..], values[1..]);
      var r := (if values[0] != "" then [VarLine(names[0], values[0])] else []) + rest;
      assert forall k :: 0 <= k < |rest| ==>
               exists j :: 1 <= j < |names| && values[j] != "" && rest[k] == VarLine(names[j], values[j]) by {
        forall k | 0 <= k < |rest|
          ensures exists j :: 1 <= j < |names| && values[j] != "" && rest[k] == VarLine(names[j], values[j])
        {
          var j :| 0 <= j < |names[1..]| && values[1..][j] != "" && rest[k] == VarLine(names[1..][j], values[1..][j]);
          assert names[1..][j] == names[j + 1] && values[1..][j] == values[j + 1];
        }
      }
      r
  }

  /** The rule around what the `writeVar` calls write for `values`. */
  function Rule(names: seq<string>, values: seq<string>): (css: string)
    requires |names| == |values|
    ensures IsPrefix(RootOpen, css)
    ensures |css| >= |RootOpen| + |RootClose| && css[|css| - |RootClose|..] == RootClose
    ensures css == RootOpen + Concat(Present(names, values)) + RootClose
  {
    var body := Concat(Writes(names, values));
    WritesSkipEmpty(names, values);
    var css := RootOpen + body + RootClose;
    assert css[..|RootOpen|] == RootOpen;
    assert css[|css| - |RootClose|..] == RootClose;
    css
  }

  /** `renderPalette`: the opening of the rule, the nine `writeVar` calls
      on the effective palette, and the closing brace. */
  function RenderPalette(p: ColorPalette): (css: string)
    ensures IsPrefix(RootOpen, css)
    ensures |css| >= |RootOpen| + |RootClose| && css[|css| - |RootClose|..] == RootClose
    ensures css == RootOpen + Concat(Present(VarNames, Values(Effective(p)))) + RootClose
  {
    Rule(VarNames, Values(Effective(p)))
  }

  /** Writing every value and skipping the empty ones leaves the same text
      as writing only the lines of the non-empty ones. */
  lemma {:induction false} WritesSkipEmpty(names: seq<string>, values: seq<string>)
    requires |names| == |values|
    ensures Concat(Writes(names, values)) == Concat(Present(names, values))
    decreases |names|
  {
    if |names| > 0 {
      WritesSkipEmpty(names[1..], values[1..]);
      var ws := Writes(names, values);
      assert ws[0] == WriteVar(names[0], values[0]) && ws[1..] == Writes(names[1..], values[1..]);
      var rest := Present(names[1..], values[1..]);
      if values[0] != "" {
        assert Present(names, values) == [VarLine(names[0], values[0])] + rest;
        assert ([VarLine(names[0], values[0])] + rest)[1..] == rest;
      } else {
        assert Present(names, values) == rest;
      }
    }
  }

  /** Every non-empty value has its line in `Present`. */
  lemma {:induction false} PresentHasLine(names: seq<string>, values: seq<string>, j: nat)
    requires |names| == |values| && j < |names| && values[j] != ""
    ensures VarLine(names[j], values[j]) in Present(names, values)
    decreases |names|
  {
    if j > 0 {
      assert names[1..][j - 1] == names[j] && values[1..][j - 1] == values[j];
      PresentHasLine(names[1..], values[1..], j - 1);
    }
  }

  /** With no empty value, every value has its line, in order. */
  lemma {:induction false} AllPresent(names: seq<string>, values: seq<string>)
    requires |names| == |values|
    requires forall i :: 0 <= i < |values| ==> values[i] != ""
    ensures |Present(names, values)| == |names|
    ensures forall i :: 0 <= i < |names| ==> Present(names, values)[i] == VarLine(names[i], values[i])
    decreases |names|
  {
    if |names| > 0 {
      assert forall i :: 0 <= i < |values[1..]| ==> values[1..][i] == values[i + 1];
      AllPresent(names[1..], values[1..]);
      var rest := Present(names[1..], values[1..]);
      var r := Present(names, values);
      assert r == [VarLine(names[0], values[0])] + rest;
      forall i | 0 <= i < |names|
        ensures r[i] == VarLine(names[i], values[i])
      {
        if i > 0 {
          assert r[i] == rest[i - 1];
          assert names[1..][i - 1] == names[i] && values[1..][i - 1] == values[i];
        }
      }
    }
  }

  /** With every value empty, nothing is written. */
  lemma {:induction false} NonePresent(names: seq<string>, values: seq<string>)
    requires |names| == |values|
    requires forall i :: 0 <= i < |values| ==> values[i] == ""
    ensures Present(names, values) == []
    decreases |names|
  {
    if |names| > 0 {
      assert forall i :: 0 <= i < |values[1..]| ==> values[1..][i] == values[i + 1];
      NonePresent(names[1..], values[1..]);
    }
  }

  /** The line of every non-empty value occurs in the rule. */
  lemma RuleHasLine(names: seq<string>, values: seq<string>, j: nat)
    requires |names| == |values| && j < |names| && values[j] != ""
    ensures Contains(Rule(names, values), VarLine(names[j], values[j]))
  {
    var lines := Present(names, values);
    var line := VarLine(names[j], values[j]);
    PresentHasLine(names, values, j);
    var k :| 0 <= k < |lines| && lines[k] == line;
    ConcatOccurs(lines, k);
    OccursInMiddle(RootOpen, Concat(lines), RootClose, line, |Concat(lines[..k])|);
  }

  /** The line of every non-empty field of the effective palette occurs in
      the rendered rule. */
  lemma LineAppears(p: ColorPalette, j: nat)
    requires j < |VarNames| && Values(Effective(p))[j] != ""
    ensures Contains(RenderPalette(p), VarLine(VarNames[j], Values(Effective(p))[j]))
  {
    RuleHasLine(VarNames, Values(Effective(p)), j);
  }

  /** Without a primary colour, all nine default lines are written, in
      field order. */
  lemma DefaultPaletteLines(p: ColorPalette)
    requires p.primary == ""
    ensures |Present(VarNames, Values(Effective(p)))| == 9
    ensures forall i :: 0 <= i < 9 ==>
              Present(VarNames, Values(Effective(p)))[i] == VarLine(VarNames[i], Values(DefaultPalette)[i])
  {
    AllPresent(VarNames, Values(Effective(p)));
  }

  /** Without a primary colour, the other fields are ignored. */
  lemma EmptyPrimaryDiscards(p: ColorPalette, q: ColorPalette)
    requires p.primary == "" && q.primary == ""
    ensures RenderPalette(p) == RenderPalette(q)
  {
  }

  /** With a primary colour, the field at `j` has a line exactly when it is
      non-empty: the count of lines is the count of non-empty fields. */
  lemma LinesCountFields(p: ColorPalette)
    requires p.primary != ""
    ensures |Present(VarNames, Values(Effective(p)))| == NonEmptyCount(Values(p))
  {
  }

  /** With only the first two values set, the rule holds their two lines. */
  lemma FirstTwoSet(names: seq<string>, values: seq<string>)
    requires |names| == |values| >= 2 && values[0] != "" && values[1] != ""
    requires forall i :: 2 <= i < |values| ==> values[i] == ""
    ensures Rule(names, values) == RootOpen + VarLine(names[0], values[0]) + VarLine(names[1], values[1]) + RootClose
  {
    var l0 := VarLine(names[0], values[0]);
    var l1 := VarLine(names[1], values[1]);
    assert RootOpen + (l0 + l1) + RootClose == RootOpen + l0 + l1 + RootClose;
    assert forall i :: 0 <= i < |values[2..]| ==> values[2..][i] == values[i + 2];
    NonePresent(names[2..], values[2..]);
    assert names[1..][1..] == names[2..] && values[1..][1..] == values[2..];
    assert Present(names[1..], values[1..]) == [l1];
    assert Present(names, values) == [l0, l1];
    var ls := [l0, l1];
    assert ls[0..] == ls && ls[2..] == [];
    ConcatStep(ls, 0);
    ConcatStep(ls, 1);
    assert l1 + "" == l1;
    var body := Concat(Present(names, values));
    assert body == l0 + l1;
    assert Rule(names, values) == RootOpen + body + RootClose;
  }

  /** The rendering test: only the two colours set are written, primary
      first. */
  lemma RenderPaletteVector()
    ensures RenderPalette(ColorPalette("#ffffff", "#000000", "", "", "", "", "", "", ""))
            == RootOpen + VarLine("--color-primary", "#ffffff") + VarLine("--color-secondary", "#000000") + RootClose
  {
    var p := ColorPalette("#ffffff", "#000000", "", "", "", "", "", "", "");
    assert Effective(p) == p;
    FirstTwoSet(VarNames, Values(p));
  }

  // ------------------------------------------------------------- site state

  /** `cssRoot`: the palette the server side renders. */
  datatype CssRoot = CssRoot(palette: ColorPalette)

  /** `SetColorPalette` on the server: the palette is stored as given. */
  function SetColorPalette(root: CssRoot, p: ColorPalette): (r: CssRoot)
    ensures r.palette == p
  {
    root.(palette := p)
  }

  /** After `SetColorPalette(p)` the rendered rule is that of `p`, whatever
      palette was stored before; the palette-setting test stores "red". */
  lemma SetThenRender(root: CssRoot, other: CssRoot, p: ColorPalette)
    ensures RenderPalette(SetColorPalette(root, p).palette) == RenderPalette(SetColorPalette(other, p).palette)
    ensures SetColorPalette(root, ColorPalette("red", "", "", "", "", "", "", "", "")).palette.primary == "red"
  {
  }
}
