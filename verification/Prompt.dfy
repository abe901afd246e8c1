/**
 The prompt the backend sends to the model: a fixed instruction block, then
 the PDF text under a `PDF TEXT:` label, then the rules, one per line, under a
 `RULES:` label, and a closing newline. Nothing is trimmed, escaped or
 truncated.
 */
module Prompt {
  import JsString

  /** The instruction block that opens every prompt, from the template's leading newline to the blank line before the text label. */
  const Instructions: string :=
    "\nReturn ONLY valid JSON array like this:\n[\n"
    + "  { \"rule\": \"\", \"status\": \"pass/fail\", \"evidence\": \"\", \"reasoning\": \"\", \"confidence\": 0-100 }\n"
    + "]\n\nDo NOT add any explanation outside the JSON.\n\n"

  /**
   The fixed pieces of the prompt template: the instruction block and the two
   labels. The rules are always joined with a newline, and the prompt always
   ends with one.
   */
  datatype Template = Template(instructions: string, textLabel: string, rulesLabel: string)

  /** The template the backend fills in. */
  const Backend: Template := Template(Instructions, "PDF TEXT:\n", "\n\nRULES:\n")

  /** Where the PDF text starts in a filled-in template. */
  function TextStart(t: Template): nat
  {
    |t.instructions| + |t.textLabel|
  }

  /** Where the rule lines start in a template filled in with a text of `textLength` characters. */
  function RulesStart(t: Template, textLength: nat): nat
  {
    TextStart(t) + textLength + |t.rulesLabel|
  }

  /**
   The template literal `t` filled in with `pdfText` and `rules.join("\n")`.
   The backend has one template, `Backend`; the fixed text is a parameter only
   so that the layout lemmas below need not reason about the long instruction
   literal, and they hold for `Backend` in particular.
   */
  function Fill(t: Template, pdfText: string, rules: seq<string>): (r: string)
    ensures |r| == RulesStart(t, |pdfText|) + |JsString.Join(rules, "\n")| + 1
    // the instruction block comes first
    ensures r[..|t.instructions|] == t.instructions
    // the PDF text appears verbatim right after its label
    ensures r[|t.instructions|..TextStart(t)] == t.textLabel
    ensures r[TextStart(t)..TextStart(t) + |pdfText|] == pdfText
    // the rule lines appear verbatim right after theirs, and the prompt ends with a newline
    ensures r[TextStart(t) + |pdfText|..RulesStart(t, |pdfText|)] == t.rulesLabel
    ensures r[RulesStart(t, |pdfText|)..|r| - 1] == JsString.Join(rules, "\n")
    ensures r[|r| - 1] == '\n'
  {
    var join := JsString.Join(rules, "\n");
    var r := t.instructions + t.textLabel + pdfText + t.rulesLabel + join + "\n";
    assert r == ((((t.instructions + t.textLabel) + pdfText) + t.rulesLabel) + join) + "\n";
    r
  }

  /** The prompt the backend sends: its own template filled in. Every lemma below holds for it with `t := Backend`. */
  function Build(pdfText: string, rules: seq<string>): string
  {
    Fill(Backend, pdfText, rules)
  }

  /** Reads the PDF text back out of a prompt filled in from `t`, given the text's length. */
  function TextOf(t: Template, prompt: string, textLength: nat): string
    requires TextStart(t) + textLength <= |prompt|
  {
    prompt[TextStart(t)..TextStart(t) + textLength]
  }

  /** Reads the rules back out of a prompt filled in from `t`, given the length of the PDF text, by splitting the rules section on newlines. */
  function RulesOf(t: Template, prompt: string, textLength: nat): seq<string>
    requires RulesStart(t, textLength) < |prompt|
  {
    JsString.Split(prompt[RulesStart(t, textLength)..|prompt| - 1], '\n')
  }

  /**
   A prompt can be taken apart again: the PDF text comes back verbatim, and
   the rules come back in input order provided there is at least one and none
   contains a newline.
   */
  lemma {:induction false} RoundTrip(t: Template, pdfText: string, rules: seq<string>)
    requires |rules| >= 1
    requires forall k :: 0 <= k < |rules| ==> '\n' !in rules[k]
    ensures TextOf(t, Fill(t, pdfText, rules), |pdfText|) == pdfText
    ensures RulesOf(t, Fill(t, pdfText, rules), |pdfText|) == rules
  {
    assert "\n" == ['\n'];
    JsString.SplitJoin(rules, '\n');
  }

  /** The round trip for the prompt the backend actually sends. */
  lemma BuildRoundTrip(pdfText: string, rules: seq<string>)
    requires |rules| >= 1
    requires forall k :: 0 <= k < |rules| ==> '\n' !in rules[k]
    ensures TextOf(Backend, Build(pdfText, rules), |pdfText|) == pdfText
    ensures RulesOf(Backend, Build(pdfText, rules), |pdfText|) == rules
  {
    RoundTrip(Backend, pdfText, rules);
  }

  /**
   The template marks no boundaries: a PDF text that itself holds the rules
   label gives the same prompt as a shorter text with extra rules, so a prompt
   can only be taken apart given the length of its PDF text.
   */
  lemma {:induction false} TextCanPoseAsRules(t: Template)
    requires t.rulesLabel == "\n\nRULES:\n"
    ensures Fill(t, "a" + t.rulesLabel + "b", ["c"]) == Fill(t, "a", ["b", "", "RULES:", "c"])
  {
    var rules := ["b", "", "RULES:", "c"];
    assert rules[1..] == ["", "RULES:", "c"] && rules[1..][1..] == ["RULES:", "c"];
    assert rules[1..][1..][1..] == ["c"];
    assert JsString.Join(rules, "\n") == "b\n\nRULES:\nc";
  }

  /** The collision for the prompt the backend actually sends. */
  lemma BuildCannotSeparateTextFromRules()
    ensures Build("a\n\nRULES:\nb", ["c"]) == Build("a", ["b", "", "RULES:", "c"])
  {
    assert "a\n\nRULES:\nb" == "a" + Backend.rulesLabel + "b";
    TextCanPoseAsRules(Backend);
  }

  /** With no rules the rules section is empty, and splitting it gives one empty line, not zero rules. */
  lemma NoRulesGiveOneEmptyLine(t: Template, pdfText: string)
    ensures RulesOf(t, Fill(t, pdfText, []), |pdfText|) == [""]
  {
    var r := Fill(t, pdfText, []);
    assert r[RulesStart(t, |pdfText|)..|r| - 1] == [];
  }

  /** A piece of a section of `p` is the matching piece of `p` itself. */
  lemma PieceOfSection(p: string, s: nat, section: string, o: nat, n: nat)
    requires s + |section| <= |p| && p[s..s + |section|] == section
    requires o + n <= |section|
    ensures p[s + o..s + o + n] == section[o..o + n]
    ensures o + n < |section| ==> p[s + o + n] == section[o + n]
  {
    var piece := p[s + o..s + o + n];
    forall m | 0 <= m < n
      ensures piece[m] == section[o..o + n][m]
    {
      assert section[o + m] == p[s..s + |section|][o + m];
    }
    if o + n < |section| {
      assert section[o + n] == p[s..s + |section|][o + n];
    }
  }

  /** The rule-placement facts for any string holding the joined rules between `s` and its last character. */
  lemma {:induction false} RulesInSection(p: string, s: nat, rules: seq<string>, k: nat)
    requires k < |rules|
    requires s < |p| && p[s..|p| - 1] == JsString.Join(rules, "\n")
    ensures var o := s + JsString.Offset(rules, "\n", k);
      && o + |rules[k]| < |p|
      && p[o..o + |rules[k]|] == rules[k]
      && (k + 1 < |rules| ==> p[o + |rules[k]|] == '\n')
  {
    var join := JsString.Join(rules, "\n");
    var o := JsString.Offset(rules, "\n", k);
    var n := |rules[k]|;
    JsString.JoinEmbedsParts(rules, "\n", k);
    PieceOfSection(p, s, join, o, n);
    if k + 1 < |rules| {
      JsString.JoinSeparatesParts(rules, "\n", k);
      assert join[o + n..o + n + 1] == "\n";
    }
  }

  /**
   Every rule appears verbatim in the prompt, at its own offset in the rules
   section, and consecutive rules are separated by exactly one newline, so
   the rules keep their input order.
   */
  lemma {:induction false} RulesInOrder(t: Template, pdfText: string, rules: seq<string>, k: nat)
    requires k < |rules|
    ensures var p := Fill(t, pdfText, rules); var o := RulesStart(t, |pdfText|) + JsString.Offset(rules, "\n", k);
      && o + |rules[k]| < |p|
      && p[o..o + |rules[k]|] == rules[k]
      && (k + 1 < |rules| ==> p[o + |rules[k]|] == '\n')
  {
    var p := Fill(t, pdfText, rules);
    var s := RulesStart(t, |pdfText|);
    assert s < |p| && p[s..|p| - 1] == JsString.Join(rules, "\n");
    RulesInSection(p, s, rules, k);
  }
}
