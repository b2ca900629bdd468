/** Placeholder substitution: `make_prompt` and the `<<KEYWORD>>` rewrite of
    the batch path. */
module Prompt {
  import opened Text

  const TopicSlot: string := "<<TOPIC>>"
  const CategorySlot: string := "<<CATEGORY>>"
  const KeywordSlot: string := "<<KEYWORD>>"

  /** `make_prompt`: every `<<TOPIC>>`, then every `<<CATEGORY>>`, is replaced;
      an empty value (falsy in Python) skips its replacement. */
  function MakePrompt(template: string, topic: string, category: string): (r: string)
  {
    var afterTopic := if topic != [] then ReplaceAll(template, TopicSlot, topic) else template;
    if category != [] then ReplaceAll(afterTopic, CategorySlot, category) else afterTopic
  }

  /** The topic of a batch row once `<<KEYWORD>>` is replaced by the row's
      keyword; unlike `make_prompt` there is no emptiness test. The topic is
      cut at every placeholder the scan finds and rejoined with the keyword. */
  function KeywordTopic(topic: string, keyword: string): (r: string)
    ensures r == JoinWith(SplitOn(topic, KeywordSlot), keyword)
  {
    ReplaceIsJoinOfSplit(topic, KeywordSlot, keyword);
    ReplaceAll(topic, KeywordSlot, keyword)
  }

  /** Read left to right, every `<` of s opens a `<<TOPIC>>` or a
      `<<CATEGORY>>` placeholder. */
  predicate SlotsOnly(s: string)
    decreases |s|
  {
    if s == [] then true
    else if StartsWith(s, TopicSlot) then SlotsOnly(s[|TopicSlot|..])
    else if StartsWith(s, CategorySlot) then SlotsOnly(s[|CategorySlot|..])
    else s[0] != '<' && SlotsOnly(s[1..])
  }

  /** Read left to right, every `<` of s opens the placeholder `slot`. */
  predicate SlotOnly(s: string, slot: string)
    requires slot != []
    decreases |s|
  {
    if s == [] then true
    else if StartsWith(s, slot) then SlotOnly(s[|slot|..], slot)
    else s[0] != '<' && SlotOnly(s[1..], slot)
  }

  // ---------------------------------------------------------------------
  // A template with neither placeholder, or empty values

  /** A template with neither placeholder comes back unchanged, whatever the
      values. */
  lemma MakePromptWithoutSlots(template: string, topic: string, category: string)
    requires !Contains(template, TopicSlot) && !Contains(template, CategorySlot)
    ensures MakePrompt(template, topic, category) == template
  {
    ReplaceAbsent(template, TopicSlot, topic);
    ReplaceAbsent(template, CategorySlot, category);
  }

  /** An empty topic leaves every `<<TOPIC>>` where it was; the category
      replacement works on the template itself. */
  lemma MakePromptEmptyTopic(template: string, category: string)
    requires category != []
    ensures MakePrompt(template, [], category) == JoinWith(SplitOn(template, CategorySlot), category)
  {
    ReplaceIsJoinOfSplit(template, CategorySlot, category);
  }

  /** An empty category leaves every `<<CATEGORY>>` where it was; with an
      empty topic as well, the template comes back as it is. */
  lemma MakePromptEmptyCategory(template: string, topic: string)
    ensures topic != [] ==> MakePrompt(template, topic, []) == JoinWith(SplitOn(template, TopicSlot), topic)
    ensures topic == [] ==> MakePrompt(template, topic, []) == template
  {
    if topic != [] {
      ReplaceIsJoinOfSplit(template, TopicSlot, topic);
    }
  }

  /** Each value is put exactly where the scan finds its placeholder: the
      template is cut at the `<<TOPIC>>` occurrences and rejoined with the
      topic, and the result is cut at the `<<CATEGORY>>` occurrences and
      rejoined with the category. */
  lemma MakePromptPieces(template: string, topic: string, category: string)
    requires topic != [] && category != []
    ensures MakePrompt(template, topic, category) ==
            JoinWith(SplitOn(JoinWith(SplitOn(template, TopicSlot), topic), CategorySlot), category)
  {
    ReplaceIsJoinOfSplit(template, TopicSlot, topic);
    ReplaceIsJoinOfSplit(ReplaceAll(template, TopicSlot, topic), CategorySlot, category);
  }

  /** Topic first, category second: a topic that itself spells `<<CATEGORY>>`
      is replaced again. */
  lemma MakePromptOrder()
    ensures MakePrompt("<<TOPIC>>", "<<CATEGORY>>", "cars") == "cars"
  {
    assert StartsWith("<<TOPIC>>", TopicSlot);
    assert ReplaceAll("<<TOPIC>>", TopicSlot, "<<CATEGORY>>") == "<<CATEGORY>>" + ReplaceAll([], TopicSlot, "<<CATEGORY>>");
    assert StartsWith("<<CATEGORY>>", CategorySlot);
    assert ReplaceAll("<<CATEGORY>>", CategorySlot, "cars") == "cars" + ReplaceAll([], CategorySlot, "cars");
  }

  // ---------------------------------------------------------------------
  // No placeholder is left behind

  lemma {:induction false} PrefixSlotOnly(t: string, x: string, slot: string)
    requires slot != [] && slot[0] == '<'
    requires '<' !in t && SlotOnly(x, slot)
    ensures SlotOnly(t + x, slot)
    decreases |t|
  {
    if t != [] {
      var s := t + x;
      assert s[0] == t[0] && s[1..] == t[1..] + x;
      assert !StartsWith(s, slot) by {
        assert |s| >= |slot| ==> s[..|slot|][0] == s[0];
      }
      PrefixSlotOnly(t[1..], x, slot);
    } else {
      assert t + x == x;
    }
  }

  /** A replace-all scan copies a prefix at none of whose positions the
      pattern starts. */
  lemma {:induction false} ReplaceSkip(s: string, k: nat, n: nat, pat: string, rep: string)
    requires pat != [] && k <= n <= |s|
    requires forall i :: k <= i < n ==> !StartsWith(s[i..], pat)
    ensures ReplaceAll(s[k..], pat, rep) == s[k..n] + ReplaceAll(s[n..], pat, rep)
    decreases n - k
  {
    if k < n {
      assert s[k..][1..] == s[k + 1..];
      ReplaceSkip(s, k + 1, n, pat, rep);
      assert s[k..n] == [s[k]] + s[k + 1..n];
    }
  }

  /** No `<<TOPIC>>` starts inside a `<<CATEGORY>>` placeholder. */
  lemma ReplaceTopicSkipsCategory(rest: string, topic: string)
    ensures ReplaceAll(CategorySlot + rest, TopicSlot, topic) == CategorySlot + ReplaceAll(rest, TopicSlot, topic)
  {
    var s := CategorySlot + rest;
    forall i | 0 <= i < |CategorySlot| ensures !StartsWith(s[i..], TopicSlot) {
      if i == 0 {
        assert s[i..][2] != TopicSlot[2];
      } else if i == 1 {
        assert s[i..][1] != TopicSlot[1];
      } else {
        assert s[i..][0] != TopicSlot[0];
      }
    }
    ReplaceSkip(s, 0, |CategorySlot|, TopicSlot, topic);
    assert s[0..] == s && s[..|CategorySlot|] == CategorySlot && s[|CategorySlot|..] == rest;
  }

  /** Filling `<<TOPIC>>` with a value without `<` leaves `<` only at
      `<<CATEGORY>>` placeholders. */
  lemma {:induction false} FillTopic(s: string, topic: string)
    requires SlotsOnly(s) && '<' !in topic
    ensures SlotOnly(ReplaceAll(s, TopicSlot, topic), CategorySlot)
    decreases |s|
  {
    if s == [] {
    } else if StartsWith(s, TopicSlot) {
      FillTopic(s[|TopicSlot|..], topic);
      PrefixSlotOnly(topic, ReplaceAll(s[|TopicSlot|..], TopicSlot, topic), CategorySlot);
    } else if StartsWith(s, CategorySlot) {
      var rest := s[|CategorySlot|..];
      assert s == CategorySlot + rest;
      FillTopic(rest, topic);
      ReplaceTopicSkipsCategory(rest, topic);
      var r := ReplaceAll(rest, TopicSlot, topic);
      assert StartsWith(CategorySlot + r, CategorySlot) && (CategorySlot + r)[|CategorySlot|..] == r;
    } else {
      FillTopic(s[1..], topic);
      PrefixSlotOnly([s[0]], ReplaceAll(s[1..], TopicSlot, topic), CategorySlot);
    }
  }

  /** Filling a placeholder with a value without `<`, in a text whose every
      `<` opens that placeholder, leaves no `<`. */
  lemma {:induction false} FillSlot(s: string, slot: string, value: string)
    requires slot != [] && SlotOnly(s, slot) && '<' !in value
    ensures '<' !in ReplaceAll(s, slot, value)
    decreases |s|
  {
    if s == [] {
    } else if StartsWith(s, slot) {
      FillSlot(s[|slot|..], slot, value);
    } else {
      FillSlot(s[1..], slot, value);
    }
  }

  lemma NoLessThanNoSlot(s: string, slot: string)
    requires '<' !in s && slot != [] && slot[0] == '<'
    ensures !Contains(s, slot)
  {
  }

  /** When every `<` of the template opens a placeholder and neither value
      contains `<` (nor is empty), the prompt has no `<` and so no
      placeholder left. */
  lemma MakePromptFillsAll(template: string, topic: string, category: string)
    requires SlotsOnly(template)
    requires topic != [] && '<' !in topic
    requires category != [] && '<' !in category
    ensures '<' !in MakePrompt(template, topic, category)
    ensures !Contains(MakePrompt(template, topic, category), TopicSlot)
    ensures !Contains(MakePrompt(template, topic, category), CategorySlot)
  {
    FillTopic(template, topic);
    FillSlot(ReplaceAll(template, TopicSlot, topic), CategorySlot, category);
    var r := MakePrompt(template, topic, category);
    NoLessThanNoSlot(r, TopicSlot);
    NoLessThanNoSlot(r, CategorySlot);
  }

  /** Text without `<` satisfies SlotsOnly. */
  lemma NoLessThanSlotsOnly(s: string)
    requires '<' !in s
    ensures SlotsOnly(s)
    decreases |s|
  {
    if s != [] {
      assert s[0] != '<';
      assert !StartsWith(s, TopicSlot);
      assert !StartsWith(s, CategorySlot);
      NoLessThanSlotsOnly(s[1..]);
    }
  }

  /** SlotsOnly is kept by concatenation, so a user template followed by the
      fixed exemplar (which has no `<`) still satisfies it. */
  lemma {:induction false} SlotsOnlyAppend(a: string, b: string)
    requires SlotsOnly(a) && SlotsOnly(b)
    ensures SlotsOnly(a + b)
    decreases |a|
  {
    if a == [] {
      assert a + b == b;
    } else if StartsWith(a, TopicSlot) {
      PrefixKept(a, b, TopicSlot);
      SlotsOnlyAppend(a[|TopicSlot|..], b);
    } else if StartsWith(a, CategorySlot) {
      PrefixKept(a, b, CategorySlot);
      CategoryIsNotTopic(a + b);
      SlotsOnlyAppend(a[|CategorySlot|..], b);
    } else {
      FirstKept(a, b);
      SlotsOnlyAppend(a[1..], b);
    }
  }

  /** The prompt `generate_blog` builds from a template and an appended
      exemplar that has no `<`: when every `<` of the template opens a
      placeholder and both values are non-empty and free of `<`, no
      placeholder is left. */
  lemma MakePromptWithExemplarFillsAll(template: string, exemplar: string, topic: string, category: string)
    requires SlotsOnly(template) && '<' !in exemplar
    requires topic != [] && '<' !in topic
    requires category != [] && '<' !in category
    ensures '<' !in MakePrompt(template + exemplar, topic, category)
    ensures !Contains(MakePrompt(template + exemplar, topic, category), TopicSlot)
    ensures !Contains(MakePrompt(template + exemplar, topic, category), CategorySlot)
  {
    NoLessThanSlotsOnly(exemplar);
    SlotsOnlyAppend(template, exemplar);
    MakePromptFillsAll(template + exemplar, topic, category);
  }

  lemma PrefixKept(a: string, b: string, p: string)
    requires StartsWith(a, p)
    ensures StartsWith(a + b, p) && (a + b)[|p|..] == a[|p|..] + b
  {
    assert (a + b)[..|p|] == a[..|p|];
  }

  lemma CategoryIsNotTopic(s: string)
    requires StartsWith(s, CategorySlot)
    ensures !StartsWith(s, TopicSlot)
  {
    assert s[2] == s[..|CategorySlot|][2] == 'C';
    assert s[..|TopicSlot|][2] == s[2];
  }

  lemma FirstKept(a: string, b: string)
    requires a != [] && a[0] != '<'
    ensures (a + b)[0] == a[0] && (a + b)[1..] == a[1..] + b
    ensures !StartsWith(a + b, TopicSlot) && !StartsWith(a + b, CategorySlot)
  {
    var s := a + b;
    assert |s| >= |TopicSlot| ==> s[..|TopicSlot|][0] == s[0];
    assert |s| >= |CategorySlot| ==> s[..|CategorySlot|][0] == s[0];
  }

  // ---------------------------------------------------------------------
  // The keyword rewrite

  /** A row topic without `<<KEYWORD>>` is kept as it is. */
  lemma KeywordTopicWithoutSlot(topic: string, keyword: string)
    requires !Contains(topic, KeywordSlot)
    ensures KeywordTopic(topic, keyword) == topic
  {
    ReplaceAbsent(topic, KeywordSlot, keyword);
  }

  /** When every `<` of the topic opens a `<<KEYWORD>>` placeholder and the
      keyword has no `<`, the rewritten topic has no `<` and so no
      placeholder left. The keyword may be empty. */
  lemma KeywordTopicFillsAll(topic: string, keyword: string)
    requires SlotOnly(topic, KeywordSlot) && '<' !in keyword
    ensures '<' !in KeywordTopic(topic, keyword)
    ensures !Contains(KeywordTopic(topic, keyword), KeywordSlot)
  {
    FillSlot(topic, KeywordSlot, keyword);
    NoLessThanNoSlot(KeywordTopic(topic, keyword), KeywordSlot);
  }

  /** For every topic, an empty keyword deletes each `<<KEYWORD>>`: the
      pieces between the placeholders are glued directly, and the topic is
      shorter by the placeholder's length per occurrence. */
  lemma KeywordTopicEmptyKeywordDeletes(topic: string)
    ensures KeywordTopic(topic, "") == JoinWith(SplitOn(topic, KeywordSlot), "")
    ensures |KeywordTopic(topic, "")| == |topic| - Occurrences(topic, KeywordSlot) * |KeywordSlot|
  {
    ReplaceLength(topic, KeywordSlot, "");
  }

  /** An example: an empty keyword deletes the placeholder (no emptiness
      test here). A blank cell of the uploaded table does not reach this
      case: `read_csv` reads it as NaN, and the `replace` call on line 310
      then raises. */
  lemma KeywordTopicEmptyKeyword()
    ensures KeywordTopic("<<KEYWORD>> subsidy", "") == " subsidy"
  {
    var s := "<<KEYWORD>> subsidy";
    assert StartsWith(s, KeywordSlot);
    assert s[|KeywordSlot|..] == " subsidy";
    ReplaceAbsent(" subsidy", KeywordSlot, "") by {
      NoLessThanNoSlot(" subsidy", KeywordSlot);
    }
  }
}
