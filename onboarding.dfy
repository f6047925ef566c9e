/**
 * The onboarding wizard's state (frontend/src/pages/Onboarding/index.tsx): the active step,
 * the list of completed steps and the chosen preferences, with the step navigation and the
 * interest-tag toggle. Each state setter is one assignment to the corresponding field.
 */
module Onboarding {
  import opened Seqs

  /** The wizard's steps, by label. */
  const Steps: seq<string> := ["ようこそ", "プロフィール", "好み設定", "位置情報", "完了"]

  datatype Preferences = Preferences(ageRange: (int, int), maxDistance: int, tags: seq<string>)

  const InitialPreferences := Preferences((18, 30), 50, [])

  function IsNot(tag: string): string -> bool {
    (t: string) => t != tag
  }

  /** `prev.tags.includes(tag) ? prev.tags.filter((t) => t !== tag) : [...prev.tags, tag]`. */
  function ToggledTags(tags: seq<string>, tag: string): (r: seq<string>)
    ensures tag in r <==> tag !in tags
    ensures forall t :: t != tag ==> (t in r <==> t in tags)
    ensures tag !in tags ==> |r| == |tags| + 1 && r[..|tags|] == tags && r[|tags|] == tag
    ensures tag in tags ==> |r| < |tags|
  {
    if tag in tags then
      FilterDrops(tags, tag);
      Filter(tags, IsNot(tag))
    else tags + [tag]
  }

  lemma {:induction false} FilterDrops(tags: seq<string>, tag: string)
    requires tag in tags
    ensures |Filter(tags, IsNot(tag))| < |tags|
    decreases |tags|
  {
    if tags[0] != tag {
      FilterDrops(tags[1..], tag);
    } else {
      assert Filter(tags, IsNot(tag)) == Filter(tags[1..], IsNot(tag));
    }
  }

  /** Removing a present tag keeps the other tags in their order. */
  lemma ToggleRemovesInOrder(tags: seq<string>, tag: string)
    requires tag in tags
    ensures ToggledTags(tags, tag) == Filter(tags, IsNot(tag))
    ensures forall i :: 0 <= i < |ToggledTags(tags, tag)| ==> ToggledTags(tags, tag)[i] != tag
  {
  }

  /** Toggling an absent tag twice restores the list. */
  lemma ToggleTwiceRestores(tags: seq<string>, tag: string)
    requires tag !in tags
    ensures ToggledTags(ToggledTags(tags, tag), tag) == tags
  {
    var once := tags + [tag];
    FilterAppend(tags, [tag], IsNot(tag));
    FilterSingle(tag, IsNot(tag));
    FilterAll(tags, IsNot(tag));
    assert Filter(once, IsNot(tag)) == tags;
  }

  /** Toggling a present tag twice leaves it once, at the end. */
  lemma ToggleTwicePresent(tags: seq<string>, tag: string)
    requires tag in tags
    ensures ToggledTags(ToggledTags(tags, tag), tag) == Filter(tags, IsNot(tag)) + [tag]
  {
  }

  class Wizard {
    var activeStep: int
    var completedSteps: seq<int>
    var preferences: Preferences

    /** The active step is a step, and only steps before the last are ever completed. */
    ghost predicate Valid()
      reads this
    {
      0 <= activeStep < |Steps| &&
      forall i :: 0 <= i < |completedSteps| ==> 0 <= completedSteps[i] < |Steps| - 1
    }

    constructor ()
      ensures Valid()
      ensures activeStep == 0 && completedSteps == [] && preferences == InitialPreferences
    {
      activeStep := 0;
      completedSteps := [];
      preferences := InitialPreferences;
    }

    /** `nextStep`: records the current step as completed and moves on, except on the last. */
    method NextStep()
      requires Valid()
      modifies this
      ensures Valid() && preferences == old(preferences)
      ensures old(activeStep) < |Steps| - 1 ==>
        activeStep == old(activeStep) + 1 && completedSteps == old(completedSteps) + [old(activeStep)]
      ensures old(activeStep) == |Steps| - 1 ==>
        activeStep == old(activeStep) && completedSteps == old(completedSteps)
    {
      if activeStep < |Steps| - 1 {
        completedSteps := completedSteps + [activeStep];
        activeStep := activeStep + 1;
      }
    }

    /** `prevStep`: moves back, except on the first step; completed steps stay recorded. */
    method PrevStep()
      requires Valid()
      modifies this
      ensures Valid() && preferences == old(preferences) && completedSteps == old(completedSteps)
      ensures old(activeStep) > 0 ==> activeStep == old(activeStep) - 1
      ensures old(activeStep) == 0 ==> activeStep == 0
    {
      if activeStep > 0 {
        activeStep := activeStep - 1;
      }
    }

    /**
     * A click on step `i` of the stepper: with next steps not selectable, only a step
     * before the active one can be chosen, and it becomes active; nothing else changes.
     */
    method SelectStep(i: int)
      requires Valid()
      modifies this
      ensures Valid() && preferences == old(preferences) && completedSteps == old(completedSteps)
      ensures activeStep <= old(activeStep)
      ensures activeStep == (if 0 <= i < old(activeStep) then i else old(activeStep))
    {
      if 0 <= i < activeStep {
        activeStep := i;
      }
    }

    /** `toggleTag`: only the tag list changes. */
    method ToggleTag(tag: string)
      requires Valid()
      modifies this
      ensures Valid() && activeStep == old(activeStep) && completedSteps == old(completedSteps)
      ensures preferences.ageRange == old(preferences.ageRange)
      ensures preferences.maxDistance == old(preferences.maxDistance)
      ensures preferences.tags == ToggledTags(old(preferences.tags), tag)
    {
      preferences := preferences.(tags := ToggledTags(preferences.tags, tag));
    }
  }
}
