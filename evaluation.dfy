/** The pure parts of the evaluation harness eval.py: the index-to-name label mapping of
    `load_classification_dataset` and the request payload built by `create_payload`. */
module Evaluation {
  import opened Wrappers
  import opened PyDict
  import opened Classifier

  /** `{i: label for i, label in enumerate(label_names)}`: each index is inserted in turn. */
  function LabelMapping(labelNames: seq<string>): (m: Dict<int, string>)
    ensures |m| == |labelNames|
    ensures forall i :: 0 <= i < |m| ==> m[i] == (i, labelNames[i])
  {
    if |labelNames| == 0 then []
    else
      var n := |labelNames| - 1;
      var m' := LabelMapping(labelNames[..n]);
      assert n !in Keys(m');
      SetNew(m', n, labelNames[n]);
      Set(m', n, labelNames[n])
  }

  /** The mapping is defined exactly on `0 .. len(label_names) - 1`, and index `i` maps to
      `label_names[i]`. */
  lemma LabelMappingGet(labelNames: seq<string>, i: int)
    ensures Get(LabelMapping(labelNames), i) == if 0 <= i < |labelNames| then Some(labelNames[i]) else None
  {
    var m := LabelMapping(labelNames);
    if 0 <= i < |labelNames| {
      GetAt(m, i);
    } else {
      assert i !in Keys(m);
    }
  }

  /** `label_mapping.values()` lists the label names in their original order. */
  lemma LabelMappingValues(labelNames: seq<string>)
    ensures Values(LabelMapping(labelNames)) == labelNames
  {
  }

  /** `f"Text is classified as {label}."`. */
  function Describe(name: string): (description: string) {
    "Text is classified as " + name + "."
  }

  /** `{label: f"Text is classified as {label}." for label in names}`: each name is inserted
      in turn, so a repeated name keeps the position of its first occurrence. */
  function PayloadLabels(names: seq<string>): (d: Dict<string, string>) {
    if |names| == 0 then []
    else
      var last := names[|names| - 1];
      Set(PayloadLabels(names[..|names| - 1]), last, Describe(last))
  }

  /** Index of the first occurrence of `x` in `s`, or `|s|` when there is none. */
  function IndexOf(s: seq<string>, x: string): (r: nat)
    ensures r <= |s|
    ensures r < |s| ==> s[r] == x
    ensures forall k :: 0 <= k < r ==> s[k] != x
  {
    if |s| == 0 then 0 else if s[0] == x then 0 else 1 + IndexOf(s[1..], x)
  }

  /** The payload's label dictionary has unique keys, and its keys are exactly the names:
      repeated names collapse into one key. */
  lemma {:induction false} PayloadLabelsKeys(names: seq<string>)
    ensures UniqueKeys(PayloadLabels(names))
    ensures |PayloadLabels(names)| <= |names|
    ensures forall x :: x in Keys(PayloadLabels(names)) <==> x in names
  {
    if |names| > 0 {
      var init, last := names[..|names| - 1], names[|names| - 1];
      assert names == init + [last];
      PayloadLabelsKeys(init);
      SetUnique(PayloadLabels(init), last, Describe(last));
    }
  }

  /** Every name maps to its templated description; nothing else is a key. */
  lemma {:induction false} PayloadLabelsGet(names: seq<string>, x: string)
    ensures Get(PayloadLabels(names), x) == if x in names then Some(Describe(x)) else None
  {
    if |names| > 0 {
      var init, last := names[..|names| - 1], names[|names| - 1];
      assert names == init + [last];
      PayloadLabelsGet(init, x);
      SetGet(PayloadLabels(init), last, Describe(last), x);
    }
  }

  /** The keys appear in the order of the names' first occurrences. */
  lemma {:induction false} PayloadLabelsOrder(names: seq<string>)
    ensures forall a, b :: 0 <= a < b < |PayloadLabels(names)| ==>
      IndexOf(names, Keys(PayloadLabels(names))[a]) < IndexOf(names, Keys(PayloadLabels(names))[b])
  {
    if |names| > 0 {
      var init, last := names[..|names| - 1], names[|names| - 1];
      assert names == init + [last];
      PayloadLabelsOrder(init);
      PayloadLabelsKeys(init);
      var ks' := Keys(PayloadLabels(init));
      var ks := Keys(PayloadLabels(names));
      assert ks == ks' || ks == ks' + [last];
      forall a, b | 0 <= a < b < |ks| ensures IndexOf(names, ks[a]) < IndexOf(names, ks[b]) {
        OrderStep(init, last, ks', a, b);
      }
    }
  }

  /** One key pair in the induction step of PayloadLabelsOrder. */
  lemma OrderStep(init: seq<string>, last: string, ks': seq<string>, a: nat, b: nat)
    requires forall x :: x in ks' <==> x in init
    requires forall a, b :: 0 <= a < b < |ks'| ==> IndexOf(init, ks'[a]) < IndexOf(init, ks'[b])
    requires last in init ==> a < b < |ks'|
    requires last !in init ==> a < b < |ks'| + 1
    ensures var ks := if last in init then ks' else ks' + [last];
      IndexOf(init + [last], ks[a]) < IndexOf(init + [last], ks[b])
  {
    var ks := if last in init then ks' else ks' + [last];
    assert ks[a] == ks'[a] && ks'[a] in ks';
    IndexOfPrefix(init, last, ks[a]);
    if b < |ks'| {
      assert ks[b] == ks'[b] && ks'[b] in ks';
      IndexOfPrefix(init, last, ks[b]);
    } else {
      IndexOfLast(init, last);
    }
  }

  /** A first occurrence inside a prefix is not moved by what follows it. */
  lemma {:induction false} IndexOfPrefix(s: seq<string>, y: string, x: string)
    requires x in s
    ensures IndexOf(s + [y], x) == IndexOf(s, x)
  {
    if s[0] != x {
      assert (s + [y])[1..] == s[1..] + [y];
      IndexOfPrefix(s[1..], y, x);
    }
  }

  /** A name that is new at the end is found at the end. */
  lemma IndexOfLast(s: seq<string>, x: string)
    requires x !in s
    ensures IndexOf(s + [x], x) == |s|
  {
    assert forall k :: 0 <= k < |s| ==> (s + [x])[k] == s[k] != x;
    assert (s + [x])[|s|] == x;
  }

  /** With no repeated names, the keys are the names themselves, in order. */
  lemma {:induction false} PayloadLabelsDistinct(names: seq<string>)
    requires forall i, j :: 0 <= i < j < |names| ==> names[i] != names[j]
    ensures Keys(PayloadLabels(names)) == names
  {
    if |names| > 0 {
      var init, last := names[..|names| - 1], names[|names| - 1];
      assert names == init + [last];
      PayloadLabelsDistinct(init);
      assert last !in init;
    }
  }

  /** `create_payload`: the request body for `/classify`, with exactly the three fields
      of a classification request. The text and the examples (possibly `None`) pass through
      unchanged; the labels are the templated descriptions of the mapping's names. A Python
      dict cannot repeat an index; `labelMapping` may, and its names are then all used, in
      order, with repeated names collapsing as for any other mapping. */
  function CreatePayload(inputText: string, labelMapping: Dict<int, string>, examples: Option<seq<Example>>)
    : (payload: ClassificationRequest)
    ensures payload.inputText == inputText && payload.examples == examples
    ensures UniqueKeys(payload.labels)
    ensures forall x :: x in Keys(payload.labels) <==> x in Values(labelMapping)
    ensures forall x :: x in Values(labelMapping) ==> Get(payload.labels, x) == Some(Describe(x))
  {
    var names := Values(labelMapping);
    PayloadLabelsKeys(names);
    forall x | x in names ensures Get(PayloadLabels(names), x) == Some(Describe(x)) {
      PayloadLabelsGet(names, x);
    }
    ClassificationRequest(inputText, PayloadLabels(names), examples)
  }
}
