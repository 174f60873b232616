/** The classification service of main.py: the prompt builder `generate_prompt`, the
    reply parser `parse_response` and the handler `classify_text` that chains them around
    the completion provider. */
module Classifier {
  import opened Wrappers
  import opened PyStr
  import opened PyDict

  /** One few-shot example: a text and the label it should get. */
  datatype Example = Example(text: string, labelId: string)

  /** The body of a `/classify` request. `labels` maps each label identifier to its
      description, in insertion order; `examples` is optional. A Python dict cannot hold an
      identifier twice; the model also accepts such sequences, and the prompt then lists
      each pair as given. */
  datatype ClassificationRequest = ClassificationRequest(
    inputText: string,
    labels: Dict<string, string>,
    examples: Option<seq<Example>>)

  const Preamble := "You are an assistant that classifies texts into the following categories:\n"
  const ExampleIntro := "Here are some example texts and their corresponding labels: \n\n"
  const Instruction := "Please read the following text and provide the most appropriate label.\n"
  /** The cue the prompt ends with, so that the model continues with the label. */
  const LabelCue := "Label: "

  // ---------------------------------------------------------------- label block

  /** `f"- {label}: {desc}"`. */
  function LabelLine(id: string, desc: string): (line: string) {
    "- " + id + ": " + desc
  }

  /** One line per label, in the dictionary's order. */
  function LabelLines(labels: Dict<string, string>): (lines: seq<string>) {
    seq(|labels|, i requires 0 <= i < |labels| => LabelLine(labels[i].0, labels[i].1))
  }

  /** `"\n".join(...)` of the label lines. */
  function LabelBlock(labels: Dict<string, string>): (block: string) {
    Join("\n", LabelLines(labels))
  }

  /** An empty label set gives an empty label block. */
  lemma LabelBlockEmpty()
    ensures LabelBlock([]) == ""
  {
  }

  /** Reading the label block back line by line gives exactly one line per label, in the
      dictionary's order, as long as no identifier or description holds a newline. */
  lemma LabelBlockLines(labels: Dict<string, string>)
    requires |labels| >= 1
    requires forall i :: 0 <= i < |labels| ==> '\n' !in labels[i].0 && '\n' !in labels[i].1
    ensures Split('\n', LabelBlock(labels)) == LabelLines(labels)
  {
    var lines := LabelLines(labels);
    forall i | 0 <= i < |lines| ensures '\n' !in lines[i] {
      assert lines[i] == "- " + labels[i].0 + ": " + labels[i].1;
    }
    SplitJoin('\n', lines);
  }

  // ---------------------------------------------------------------- example block

  /** `f"Text: \"{ex.text}\"\nLabel: {ex.label}\n\n"`. */
  function ExampleText(ex: Example): (r: string) {
    "Text: \"" + ex.text + "\"\nLabel: " + ex.labelId + "\n\n"
  }

  /** The rendered examples, one after the other in the given order. */
  function ExamplesText(exs: seq<Example>): (r: string) {
    if |exs| == 0 then "" else ExampleText(exs[0]) + ExamplesText(exs[1..])
  }

  /** Rendering a concatenation of example lists concatenates the renderings. */
  lemma {:induction false} ExamplesTextAppend(a: seq<Example>, b: seq<Example>)
    ensures ExamplesText(a + b) == ExamplesText(a) + ExamplesText(b)
  {
    if |a| > 0 {
      assert (a + b)[1..] == a[1..] + b;
      ExamplesTextAppend(a[1..], b);
    } else {
      assert a + b == b;
    }
  }

  /** The example `exs[k]` is rendered right after the rendering of the examples before it. */
  lemma ExampleAt(exs: seq<Example>, k: nat)
    requires k < |exs|
    ensures ExamplesText(exs) == ExamplesText(exs[..k]) + ExampleText(exs[k]) + ExamplesText(exs[k + 1..])
  {
    assert exs == exs[..k] + exs[k..];
    ExamplesTextAppend(exs[..k], exs[k..]);
  }

  /** Rendered offsets grow with the position in the list, so the examples appear in order. */
  lemma ExampleOffsetsGrow(exs: seq<Example>, i: nat, j: nat)
    requires i < j <= |exs|
    ensures |ExamplesText(exs[..i])| + |ExampleText(exs[i])| <= |ExamplesText(exs[..j])|
  {
    assert exs[..j] == exs[..i] + [exs[i]] + exs[i + 1..j];
    ExamplesTextAppend(exs[..i] + [exs[i]], exs[i + 1..j]);
    ExamplesTextAppend(exs[..i], [exs[i]]);
    assert ExamplesText([exs[i]]) == ExampleText(exs[i]) by {
      assert [exs[i]][1..] == [];
    }
  }

  /** One more example renders one more example text at the end. */
  lemma ExamplesTextStep(exs: seq<Example>, i: nat)
    requires i < |exs|
    ensures ExamplesText(exs[..i + 1]) == ExamplesText(exs[..i]) + ExampleText(exs[i])
  {
    assert exs[..i + 1] == exs[..i] + [exs[i]];
    ExamplesTextAppend(exs[..i], [exs[i]]);
    assert [exs[i]][1..] == [];
  }

  /** Python's `if examples:` — false for `None` and for the empty list. */
  predicate HasExamples(examples: Option<seq<Example>>) {
    examples.Some? && |examples.value| > 0
  }

  /** What `example_text` holds once the `if examples:` block has run. */
  function ExampleBlock(examples: Option<seq<Example>>): (r: string) {
    if HasExamples(examples) then ExampleIntro + ExamplesText(examples.value) else ""
  }

  /** The example block is built by appending to a string inside a loop. */
  method BuildExampleBlock(examples: Option<seq<Example>>) returns (exampleText: string)
    ensures exampleText == ExampleBlock(examples)
  {
    exampleText := "";
    if examples.Some? && |examples.value| > 0 {
      var exs := examples.value;
      exampleText := exampleText + ExampleIntro;
      for i := 0 to |exs|
        invariant exampleText == ExampleIntro + ExamplesText(exs[..i])
      {
        ExamplesTextStep(exs, i);
        exampleText := exampleText + ExampleText(exs[i]);
      }
      assert exs[..|exs|] == exs;
    }
  }

  // ---------------------------------------------------------------- prompt

  /** The closing instruction with the quoted, unescaped input text and the label cue. */
  function Closing(inputText: string): (r: string) {
    Instruction + "Text: \"" + inputText + "\"\n" + LabelCue
  }

  /** The prompt `generate_prompt` returns. */
  function PromptText(inputText: string, labels: Dict<string, string>, examples: Option<seq<Example>>): (prompt: string) {
    Preamble + LabelBlock(labels) + "\n\n" + ExampleBlock(examples) + Closing(inputText)
  }

  /** `generate_prompt(input_text, labels, examples)`. Being equal to a function of its
      arguments, it is deterministic. */
  method GeneratePrompt(inputText: string, labels: Dict<string, string>, examples: Option<seq<Example>>)
    returns (prompt: string)
    ensures prompt == PromptText(inputText, labels, examples)
  {
    var labelDescriptions := Join("\n", LabelLines(labels));
    var exampleText := BuildExampleBlock(examples);
    prompt := Preamble + labelDescriptions + "\n\n" + exampleText
      + Instruction + "Text: \"" + inputText + "\"\n" + LabelCue;
  }

  /** `a` opens `a + b + c`, and `c` closes it. */
  lemma Ends(p: string, a: string, b: string, c: string)
    requires p == a + b + c
    ensures |a| + |c| <= |p| && p[..|a|] == a && p[|p| - |c|..] == c
  {
  }

  /** A slice of a suffix is the corresponding slice of the whole. */
  lemma SuffixSlice(p: string, c: string, i: nat, j: nat)
    requires |c| <= |p| && p[|p| - |c|..] == c && i <= j <= |c|
    ensures p[|p| - |c| + i .. |p| - |c| + j] == c[i..j]
  {
    var o := |p| - |c|;
    forall k | 0 <= k < j - i ensures p[o + i .. o + j][k] == c[i..j][k] {
      assert p[o + i .. o + j][k] == p[o..][i + k];
    }
  }

  /** The prompt opens with the preamble, the label block and a blank line, and closes with
      the instruction, the quoted input text and `"Label: "`. */
  lemma PromptFrame(inputText: string, labels: Dict<string, string>, examples: Option<seq<Example>>)
    ensures var p, head := PromptText(inputText, labels, examples), Preamble + LabelBlock(labels) + "\n\n";
      |head| + |Closing(inputText)| <= |p| && p[..|head|] == head
    ensures var p := PromptText(inputText, labels, examples);
      p[|p| - |Closing(inputText)|..] == Closing(inputText)
    ensures var p := PromptText(inputText, labels, examples);
      p[|p| - |LabelCue|..] == LabelCue
  {
    var p := PromptText(inputText, labels, examples);
    var c := Closing(inputText);
    Ends(p, Preamble + LabelBlock(labels) + "\n\n", ExampleBlock(examples), c);
    SuffixSlice(p, c, |c| - |LabelCue|, |c|);
  }

  /** The input text is embedded verbatim, without escaping, between the quote that opens
      it and the `"\n` and `Label: ` that end the prompt. */
  lemma PromptEmbedsInput(inputText: string, labels: Dict<string, string>, examples: Option<seq<Example>>)
    ensures var p := PromptText(inputText, labels, examples);
      |LabelCue| + 2 + |inputText| <= |p|
      && p[|p| - |LabelCue| - 2 - |inputText| .. |p| - |LabelCue| - 2] == inputText
  {
    var p := PromptText(inputText, labels, examples);
    var c := Closing(inputText);
    PromptFrame(inputText, labels, examples);
    var open := Instruction + "Text: \"";
    assert |c| == |open| + |inputText| + 2 + |LabelCue|;
    assert c[|open| .. |open| + |inputText|] == inputText;
    SuffixSlice(p, c, |open|, |open| + |inputText|);
  }

  /** `None` and `[]` both leave the example block empty, so they give the same prompt:
      the preamble, labels and closing with no example introduction. */
  lemma ZeroShotPrompt(inputText: string, labels: Dict<string, string>)
    ensures ExampleBlock(None) == "" && ExampleBlock(Some([])) == ""
    ensures PromptText(inputText, labels, None) == PromptText(inputText, labels, Some([]))
    ensures PromptText(inputText, labels, None) == Preamble + LabelBlock(labels) + "\n\n" + Closing(inputText)
  {
  }

  /** In `a + (b + (c + d + e)) + f`, `b` and `d` sit at the offsets the lengths before
      them give. */
  lemma Pieces(a: string, b: string, c: string, d: string, e: string, f: string)
    ensures var p := a + (b + (c + d + e)) + f;
      |a| + |b| + |c| + |d| + |f| <= |p|
      && p[|a| .. |a| + |b|] == b
      && p[|a| + |b| + |c| .. |a| + |b| + |c| + |d|] == d
  {
    var p := a + (b + (c + d + e)) + f;
    forall i | 0 <= i < |b| ensures p[|a| + i] == b[i] {
      assert p[|a| + i] == (b + (c + d + e))[i];
    }
    forall i | 0 <= i < |d| ensures p[|a| + |b| + |c| + i] == d[i] {
      assert p[|a| + |b| + |c| + i] == (b + (c + d + e))[|b| + |c| + i];
      assert (c + d + e)[|c| + i] == d[i];
    }
  }

  /** With examples, the example introduction follows the label block and each example
      `exs[k]` sits at its own offset, in input order, before the closing instruction. */
  lemma FewShotPrompt(inputText: string, labels: Dict<string, string>, exs: seq<Example>, k: nat)
    requires k < |exs|
    ensures var p := PromptText(inputText, labels, Some(exs));
      var start := |Preamble + LabelBlock(labels) + "\n\n"| + |ExampleIntro|;
      var off := start + |ExamplesText(exs[..k])|;
      off + |ExampleText(exs[k])| + |Closing(inputText)| <= |p|
      && p[start - |ExampleIntro| .. start] == ExampleIntro
      && p[off .. off + |ExampleText(exs[k])|] == ExampleText(exs[k])
  {
    var top := Preamble + LabelBlock(labels) + "\n\n";
    var before := ExamplesText(exs[..k]);
    var e := ExampleText(exs[k]);
    var after := ExamplesText(exs[k + 1..]);
    ExampleAt(exs, k);
    assert ExampleBlock(Some(exs)) == ExampleIntro + (before + e + after);
    Pieces(top, ExampleIntro, before, e, after, Closing(inputText));
  }

  // ---------------------------------------------------------------- reply parsing

  /** `parse_response`: the completion's content with surrounding whitespace stripped.
      The label is not checked against the requested labels. */
  function ParseResponse(content: string): (prediction: string)
    ensures NoEdgeSpace(prediction)
    ensures exists i, j :: (0 <= i <= j <= |content| && prediction == content[i..j]
                            && AllSpace(content[..i]) && AllSpace(content[j..]))
  {
    StripIsSlice(content);
    Strip(content)
  }

  /** A reply is trimmed: `"  positive \n"` gives `"positive"`. */
  lemma ParseTrims()
    ensures ParseResponse("  positive \n") == "positive"
  {
    var s := "  positive \n";
    assert s[..2] == "  ";
    assert s[10..] == " \n";
    assert s[2..10] == "positive";
    StripUnique(s, 2, 10);
  }

  /** A reply is only trimmed: a word that is no requested label, such as `"banana"`,
      comes back as is. */
  lemma ParseDoesNotValidate()
    ensures ParseResponse("banana") == "banana"
  {
    StripKeepsTrimmed("banana");
  }

  // ---------------------------------------------------------------- handler

  /** `classify_text`: build the prompt, ask the completion provider (a parameter here),
      parse its reply. */
  method ClassifyText(request: ClassificationRequest, complete: string -> string) returns (prediction: string)
    ensures prediction == ParseResponse(complete(PromptText(request.inputText, request.labels, request.examples)))
    ensures NoEdgeSpace(prediction)
  {
    var prompt := GeneratePrompt(request.inputText, request.labels, request.examples);
    var response := complete(prompt);
    prediction := ParseResponse(response);
  }
}
