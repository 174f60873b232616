# llm-classifier in Dafny

A verified model of the core of `llm-classifier`, a zero/few-shot text classification
service. The service turns an input text, a set of labels with descriptions and optional
labelled examples into a prompt for a language model, and trims the model's reply to
obtain the predicted label. The evaluation harness builds the request payloads from a
dataset's label names.

Modules:

- `Wrappers` (wrappers.dfy): `Option`, standing for Python's `Optional`.
- `PyStr` (pystr.dfy): the Python string operations the core relies on: `sep.join`,
  `str.split` on one character (used only to state what the label block contains), and
  `str.strip()` over the character set of Python's `str.isspace()`.
- `PyDict` (pydict.dfy): a Python `dict` as an ordered association list. Python dicts
  iterate in insertion order, and that order decides the order of the labels in the
  prompt. `Set` is `d[k] = v`: an existing key keeps its place and gets the new value; a new
  key is appended.
- `Classifier` (classifier.dfy, main.py): the `Example` and `ClassificationRequest`
  records, the prompt builder `generate_prompt`, the reply parser `parse_response`, and the
  handler `classify_text` with the completion provider as a function parameter.
  `generate_prompt` builds its example block with `+=` in a loop, so it is modelled as the
  method `GeneratePrompt`. That method calls the loop method `BuildExampleBlock` and is proved
  equal to the function `PromptText`. The lemmas are stated about `PromptText`. Because the
  method's result equals a function of its arguments, the prompt is deterministic.
- `Evaluation` (evaluation.dfy, eval.py): the index-to-name `label_mapping` comprehension
  and `create_payload`. Both dict comprehensions are modelled as a fold of `d[k] = v`, as
  Python evaluates them. The payload has exactly the three fields of a classification
  request, so it is modelled as a `ClassificationRequest`.

What the code does that its annotations do not say:

- `parse_response` raises when the message carries no content (`message.content` is
  `None`): main.py:87 calls `.strip()` on it. An empty-string reply is stripped to `""`. The model covers the parser only on a string.
- `generate_prompt` is annotated as taking a list of dicts, but it reads `ex.text` and
  `ex.label` as attributes. This works only for the `Example` records the request
  validation produces, and those are what the model takes.
- A Python dict cannot hold a label identifier twice. `ClassificationRequest.labels` is a
  sequence of pairs and also accepts repeated identifiers; the prompt then lists each pair
  as given.

## Model

| member | source | states |
|---|---|---|
| PyStr.SplitJoin | main.py:59 | joining lines with `"\n"` and splitting the result on `'\n'` gives back the lines, when no line holds a newline |
| PyStr.LeadingSpace | main.py:87 | the count of leading characters that `strip()` removes: all of them are whitespace and the next one is not |
| PyStr.TrailingSpace | main.py:87 | the count of trailing characters that `strip()` removes: all of them are whitespace and the one before is not |
| PyStr.Strip | main.py:87 | `strip()` gives a string no longer than its input, with no whitespace at either end |
| PyStr.StripIsSlice | main.py:87 | the stripped string is a contiguous slice of the input, and only whitespace was removed on either side |
| PyStr.StripUnique | main.py:87 | any slice that removes only whitespace and keeps none at its edges is the result of `strip()`, so strip is fully determined |
| PyStr.StripKeepsTrimmed | main.py:87 | a string with no whitespace at its edges is returned unchanged |
| PyStr.StripIdempotent | main.py:87 | stripping twice is the same as stripping once |
| PyDict.GetAt | eval.py:31 | in a dict with unique keys, looking up the key at position `i` gives the value at `i` |
| PyDict.Set | eval.py:49 | `d[k] = v` keeps the key order when `k` is present and appends `k` when it is new |
| PyDict.SetGet | eval.py:49 | after `d[k] = v`, `k` maps to `v` and every other key keeps its old lookup |
| PyDict.SetUnique | eval.py:49 | `d[k] = v` keeps the keys of a dict unique |
| PyDict.SetNew | eval.py:31 | `d[k] = v` with a new key appends the pair `(k, v)` at the end |
| Classifier.LabelBlockEmpty | main.py:59 | an empty label set yields an empty label block |
| Classifier.LabelBlockLines | main.py:59 | read line by line, the label block is exactly one `- <id>: <desc>` line per label, in the dict's order (when ids and descriptions hold no newline) |
| Classifier.ExamplesTextAppend | main.py:63-64 | rendering two example lists one after the other is the concatenation of their renderings |
| Classifier.ExampleAt | main.py:63-64 | the rendering of example `k` sits right after the renderings of the examples before it |
| Classifier.ExampleOffsetsGrow | main.py:63-64 | an earlier example's rendering ends no later than a later example's starts: examples appear in input order |
| Classifier.ExamplesTextStep | main.py:63-64 | one more loop iteration appends exactly the next example's rendering |
| Classifier.BuildExampleBlock | main.py:60-64 | the loop appending `Text: "<t>"\nLabel: <l>\n\n` per example after the introduction builds exactly the example block |
| Classifier.GeneratePrompt | main.py:47-73 | the prompt is the preamble, the label block, a blank line, the example block and the closing instruction, in that order |
| Classifier.PromptFrame | main.py:65-72 | the prompt starts with the preamble, the label block and `"\n\n"`, and ends with the closing instruction; its last characters are `"Label: "` |
| Classifier.PromptEmbedsInput | main.py:69-71 | the input text sits verbatim, unescaped, just before the closing `"\n` and `"Label: "` |
| Classifier.ZeroShotPrompt | main.py:60-61 | `None` and `[]` both leave the example block `""`, so they give the same prompt, which has no example introduction |
| Classifier.FewShotPrompt | main.py:61-68 | with examples, the introduction with its space before `\n\n` follows the label block, and each example's rendering sits at its own offset before the closing instruction |
| Classifier.ParseResponse | main.py:76-90 | the predicted label has no whitespace at either end and is a slice of the reply from which only whitespace was removed |
| Classifier.ParseTrims | main.py:87 | the reply `"  positive \n"` is parsed as `"positive"` |
| Classifier.ParseDoesNotValidate | main.py:87-90 | the reply `"banana"` is returned as is: there is no check against the requested labels |
| Classifier.ClassifyText | main.py:24-44 | the handler returns the parsed completion of the generated prompt, with no whitespace at its ends |
| Evaluation.LabelMapping | eval.py:31 | the mapping has one entry per label name, and entry `i` is `(i, label_names[i])` |
| Evaluation.LabelMappingGet | eval.py:31 | the mapping is defined exactly on `0 .. len(label_names) - 1`, and `i` maps to `label_names[i]` |
| Evaluation.LabelMappingValues | eval.py:31 | the mapping's values are the label names in their order |
| Evaluation.PayloadLabelsKeys | eval.py:49 | the payload labels have unique keys, and their key set is exactly the set of names: duplicates collapse |
| Evaluation.PayloadLabelsGet | eval.py:49 | each name maps to `"Text is classified as " + name + "."`, and nothing else is a key |
| Evaluation.PayloadLabelsOrder | eval.py:49 | the keys are in the order of each name's first occurrence |
| Evaluation.PayloadLabelsDistinct | eval.py:49 | without repeated names, the keys are the names themselves, in order |
| Evaluation.CreatePayload | eval.py:36-57 | the payload has the three request fields. `input_text` and `examples` (including `None`) pass through unchanged. Its label keys are exactly the mapping's values, each with its templated description |

## Left out

- The FastAPI application, routing and the `{"label": ...}` response dict (main.py:10, 23-24, 44): framework plumbing. `ClassifyText` returns the label string itself.
- The OpenAI client and the `chat.completions.create` call (main.py:5-8, 36-41): an external network service. The completion provider is a parameter `complete: string -> string` of `ClassifyText`.
- Extracting `response.choices[0].message.content` (main.py:87): these are foreign SDK objects. The parser is modelled on the content string, so the `None` content that would make `.strip()` raise is not modelled.
- Pydantic request validation (main.py:13-20): a library boundary. The records are plain datatypes, and values of the wrong type cannot be built.
- `load_classification_dataset` apart from the comprehension at eval.py:31: it calls the Hugging Face `datasets` library. The label names are a parameter of `LabelMapping`.
- `evaluate_classification_model` (eval.py:60-113): it makes network calls, uses sklearn's accuracy score and yields a float.
- The module-level evaluation runs and prints (eval.py:116-132): I/O.
- Classifier.LabelBlockLines: says nothing about the line structure when a label id or description contains a newline, because the prompt builder does not escape them and the lines then run together.
