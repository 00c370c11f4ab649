/**
 * The trial list of the CoDG task: every face crossed with every gaze level,
 * each shown REPEATS times, in an order fixed by a Fisher–Yates shuffle.
 */
module Trials {
  import opened Text
  import opened Seqs

  const GAZE_LEVELS: seq<int> := [-12, -9, -6, -3, -1, 0, 1, 3, 6, 9, 12]
  const FACES: seq<string> := ["M1", "F1"]
  const REPEATS: nat := 5
  const EXT: string := "png"
  const STIM_DIR: string := "stimuli"

  /**
   * One presentation: which face, which gaze angle, which repetition. The
   * record's image file and image path are fixed by its face and level, so
   * they are members computed from them rather than stored copies.
   */
  datatype Trial = Trial(faceId: string, gazeLevel: int, repeat: int) {
    function ImageFile(): string {
      FileName(faceId, gazeLevel)
    }

    function ImagePath(): string {
      "./" + STIM_DIR + "/" + ImageFile()
    }
  }

  /** The image file name `<face>_<gaze>.<ext>`. */
  function FileName(face: string, gaze: int): string {
    face + "_" + IntToString(gaze) + "." + EXT
  }

  /**
   * For face labels without '_', the file name determines the face and the
   * level: no two stimuli share an image.
   */
  lemma FileNameInjective(f1: string, g1: int, f2: string, g2: int)
    requires '_' !in f1 && '_' !in f2
    ensures FileName(f1, g1) == FileName(f2, g2) <==> f1 == f2 && g1 == g2
  {
    if FileName(f1, g1) == FileName(f2, g2) {
      var suffix := "." + EXT;
      var t1, t2 := IntToString(g1) + suffix, IntToString(g2) + suffix;
      AppendAssoc(f1 + "_", IntToString(g1), ".");
      AppendAssoc(f1 + "_", IntToString(g1) + ".", EXT);
      AppendAssoc(IntToString(g1), ".", EXT);
      AppendAssoc(f2 + "_", IntToString(g2), ".");
      AppendAssoc(f2 + "_", IntToString(g2) + ".", EXT);
      AppendAssoc(IntToString(g2), ".", EXT);
      SplitAtSeparator(f1, t1, f2, t2);
      DropSuffix(IntToString(g1), IntToString(g2), suffix);
      IntToStringInjective(g1, g2);
    }
  }

  /** Text before the first '_' and text after it are determined by the whole. */
  lemma SplitAtSeparator(p1: string, t1: string, p2: string, t2: string)
    requires '_' !in p1 && '_' !in p2 && p1 + "_" + t1 == p2 + "_" + t2
    ensures p1 == p2 && t1 == t2
  {
    var s := p1 + "_" + t1;
    assert s[|p1|] == '_' && s[|p2|] == '_';
    if |p1| < |p2| {
      assert false;
    } else if |p2| < |p1| {
      assert false;
    }
    assert p1 == s[..|p1|] == p2;
    assert t1 == s[|p1| + 1..] == t2;
  }

  lemma DropSuffix(a: string, b: string, suffix: string)
    requires a + suffix == b + suffix
    ensures a == b
  {
    assert |a| == |b|;
    assert a == (a + suffix)[..|a|] == (b + suffix)[..|b|] == b;
  }

  /** Two trials of the task's design show the same image exactly when they show the same stimulus. */
  lemma DesignImagesIdentifyStimulus(t1: Trial, t2: Trial)
    requires IsTrialOf(t1, FACES, GAZE_LEVELS, REPEATS) && IsTrialOf(t2, FACES, GAZE_LEVELS, REPEATS)
    ensures t1.ImageFile() == t2.ImageFile() <==> t1.faceId == t2.faceId && t1.gazeLevel == t2.gazeLevel
  {
    assert forall f :: f in FACES ==> '_' !in f;
    FileNameInjective(t1.faceId, t1.gazeLevel, t2.faceId, t2.gazeLevel);
  }

  /** The trials of one face and one gaze level, repeats 1..count, in push order. */
  function RepeatBlock(face: string, gaze: int, count: nat): seq<Trial>
    decreases count
  {
    if count == 0 then [] else RepeatBlock(face, gaze, count - 1) + [Trial(face, gaze, count)]
  }

  /** The trials of one face, level by level. */
  function LevelBlock(face: string, levels: seq<int>, repeats: nat): seq<Trial>
    decreases |levels|
  {
    if levels == [] then []
    else LevelBlock(face, levels[..|levels| - 1], repeats) + RepeatBlock(face, levels[|levels| - 1], repeats)
  }

  /** The unshuffled list: faces outermost, then levels, then repeats. */
  function CrossProduct(faces: seq<string>, levels: seq<int>, repeats: nat): seq<Trial>
    decreases |faces|
  {
    if faces == [] then []
    else CrossProduct(faces[..|faces| - 1], levels, repeats) + LevelBlock(faces[|faces| - 1], levels, repeats)
  }

  /** `t` is the trial for one (face, level, repeat) triple of the design. */
  predicate IsTrialOf(t: Trial, faces: seq<string>, levels: seq<int>, repeats: nat) {
    t.faceId in faces && t.gazeLevel in levels && 1 <= t.repeat <= repeats
  }

  lemma {:induction false} CrossProductLength(faces: seq<string>, levels: seq<int>, repeats: nat)
    ensures |CrossProduct(faces, levels, repeats)| == |faces| * (|levels| * repeats)
    decreases |faces|
  {
    if faces != [] {
      var m := |faces| - 1;
      CrossProductLength(faces[..m], levels, repeats);
      LevelBlockLength(faces[m], levels, repeats);
      MulSucc(m, |levels| * repeats);
    }
  }

  lemma {:induction false} LevelBlockLength(face: string, levels: seq<int>, repeats: nat)
    ensures |LevelBlock(face, levels, repeats)| == |levels| * repeats
    decreases |levels|
  {
    if levels != [] {
      var m := |levels| - 1;
      LevelBlockLength(face, levels[..m], repeats);
      RepeatBlockLength(face, levels[m], repeats);
      MulSucc(m, repeats);
    }
  }

  lemma MulSucc(m: nat, k: nat)
    ensures (m + 1) * k == m * k + k
  {
  }

  lemma {:induction false} RepeatBlockLength(face: string, gaze: int, count: nat)
    ensures |RepeatBlock(face, gaze, count)| == count
    decreases count
  {
    if count > 0 {
      RepeatBlockLength(face, gaze, count - 1);
    }
  }

  /** Repeats 1..count of one (face, level) each occur once, nothing else occurs. */
  lemma {:induction false} RepeatBlockCount(face: string, gaze: int, count: nat, t: Trial)
    ensures multiset(RepeatBlock(face, gaze, count))[t] ==
            if t.faceId == face && t.gazeLevel == gaze && 1 <= t.repeat <= count then 1 else 0
    decreases count
  {
    if count > 0 {
      RepeatBlockCount(face, gaze, count - 1, t);
    }
  }

  lemma {:induction false} LevelBlockCount(face: string, levels: seq<int>, repeats: nat, t: Trial)
    requires Distinct(levels)
    ensures multiset(LevelBlock(face, levels, repeats))[t] ==
            if t.faceId == face && t.gazeLevel in levels && 1 <= t.repeat <= repeats then 1 else 0
    decreases |levels|
  {
    if levels != [] {
      var m := |levels| - 1;
      var init, last := levels[..m], levels[m];
      LevelBlockCount(face, init, repeats, t);
      RepeatBlockCount(face, last, repeats, t);
      InSnoc(levels, t.gazeLevel);
      assert !(t.gazeLevel in init && t.gazeLevel == last);
    }
  }

  /** Every (face, level, repeat) triple of the design occurs exactly once, and nothing else. */
  lemma {:induction false} CrossProductCount(faces: seq<string>, levels: seq<int>, repeats: nat, t: Trial)
    requires Distinct(faces) && Distinct(levels)
    ensures multiset(CrossProduct(faces, levels, repeats))[t] ==
            if IsTrialOf(t, faces, levels, repeats) then 1 else 0
    decreases |faces|
  {
    if faces != [] {
      var m := |faces| - 1;
      var init, last := faces[..m], faces[m];
      CrossProductCount(init, levels, repeats, t);
      LevelBlockCount(last, levels, repeats, t);
      InSnoc(faces, t.faceId);
      assert !(t.faceId in init && t.faceId == last);
    }
  }

  // ---------------------------------------------------------------------------
  // Fisher–Yates shuffle

  function Swap<T>(s: seq<T>, i: nat, j: nat): seq<T>
    requires i < |s| && j < |s|
  {
    s[i := s[j]][j := s[i]]
  }

  /**
   * `choices[k]` is the index drawn at the k-th step of the shuffle of an
   * array of length n, the step that fills position n - 1 - k; it lies in
   * [0, n - 1 - k]. There are at most n - 1 steps.
   */
  predicate ChoicesFit(n: nat, choices: seq<nat>)
    decreases |choices|
  {
    choices == [] ||
    (|choices| < n && ChoicesFit(n, choices[..|choices| - 1]) && choices[|choices| - 1] <= n - |choices|)
  }

  /** The sequence after the first |choices| swap steps of the shuffle. */
  function Applied<T>(s: seq<T>, choices: seq<nat>): (r: seq<T>)
    requires ChoicesFit(|s|, choices)
    ensures |r| == |s|
    decreases |choices|
  {
    if choices == [] then s
    else
      var k := |choices| - 1;
      Swap(Applied(s, choices[..k]), |s| - 1 - k, choices[k])
  }

  /** Whatever indices are drawn, the shuffle only permutes its input. */
  lemma {:induction false} AppliedIsPermutation<T>(s: seq<T>, choices: seq<nat>)
    requires ChoicesFit(|s|, choices)
    ensures multiset(Applied(s, choices)) == multiset(s)
    decreases |choices|
  {
    if choices != [] {
      var k := |choices| - 1;
      AppliedIsPermutation(s, choices[..k]);
    }
  }

  /** A draw within [0, n - 1 - |choices|] extends draws that fit. */
  lemma ChoicesFitSnoc(n: nat, choices: seq<nat>, j: nat)
    requires ChoicesFit(n, choices) && |choices| + 1 < n && j <= n - 1 - |choices|
    ensures ChoicesFit(n, choices + [j])
  {
    assert (choices + [j])[..|choices|] == choices;
  }

  /** One more draw swaps the next position from the end with the drawn index. */
  lemma AppliedSnoc<T>(s: seq<T>, choices: seq<nat>, j: nat)
    requires ChoicesFit(|s|, choices) && ChoicesFit(|s|, choices + [j])
    requires |choices| + 1 < |s| && j <= |s| - 1 - |choices|
    ensures Applied(s, choices + [j]) == Swap(Applied(s, choices), |s| - 1 - |choices|, j)
  {
    var next := choices + [j];
    var k := |choices|;
    assert next != [] && |next| - 1 == k;
    assert next[..k] == choices && next[k] == j;
    assert ChoicesFit(|s|, next[..k]);
    assert Applied(s, next) == Swap(Applied(s, next[..k]), |s| - 1 - k, next[k]);
  }

  /**
   * In-place Fisher–Yates: for i from the last index down to 1, swap a[i]
   * with a[j] for a random j in [0, i]. The random draw is a nondeterministic
   * choice; `choices` records the draws.
   */
  method Shuffle<T>(a: array<T>) returns (ghost choices: seq<nat>)
    modifies a
    ensures ChoicesFit(a.Length, choices)
    ensures a.Length > 0 ==> |choices| == a.Length - 1
    ensures a[..] == Applied(old(a[..]), choices)
    ensures multiset(a[..]) == multiset(old(a[..]))
  {
    ghost var initial := a[..];
    choices := [];
    var i := a.Length - 1;
    while i > 0
      invariant -1 <= i < a.Length
      invariant a.Length > 0 ==> 0 <= i && |choices| == a.Length - 1 - i
      invariant a.Length == 0 ==> choices == []
      invariant ChoicesFit(a.Length, choices)
      invariant a[..] == Applied(initial, choices)
    {
      var j :| 0 <= j <= i;
      ghost var before := a[..];
      a[i], a[j] := a[j], a[i];
      assert a[..] == Swap(before, i, j);
      ChoicesFitSnoc(a.Length, choices, j);
      AppliedSnoc(initial, choices, j);
      choices := choices + [j];
      i := i - 1;
    }
    AppliedIsPermutation(initial, choices);
  }

  lemma DesignIsDistinct()
    ensures Distinct(FACES) && Distinct(GAZE_LEVELS)
  {
    assert forall i, j :: 0 <= i < j < |GAZE_LEVELS| ==> GAZE_LEVELS[i] < GAZE_LEVELS[j];
  }

  /** Any reordering of the design holds each design triple once and nothing else. */
  lemma PermutedDesign(trials: seq<Trial>)
    requires multiset(trials) == multiset(CrossProduct(FACES, GAZE_LEVELS, REPEATS))
    ensures |trials| == |FACES| * |GAZE_LEVELS| * REPEATS == 110
    ensures forall t :: multiset(trials)[t] == if IsTrialOf(t, FACES, GAZE_LEVELS, REPEATS) then 1 else 0
  {
    CrossProductLength(FACES, GAZE_LEVELS, REPEATS);
    assert |trials| == |multiset(trials)|;
    DesignIsDistinct();
    forall t
      ensures multiset(trials)[t] == if IsTrialOf(t, FACES, GAZE_LEVELS, REPEATS) then 1 else 0
    {
      CrossProductCount(FACES, GAZE_LEVELS, REPEATS, t);
    }
  }

  lemma LevelBlockSnoc(face: string, levels: seq<int>, k: nat, repeats: nat)
    requires k < |levels|
    ensures LevelBlock(face, levels[..k + 1], repeats) ==
            LevelBlock(face, levels[..k], repeats) + RepeatBlock(face, levels[k], repeats)
  {
    PrefixSnoc(levels, k);
  }

  lemma CrossProductSnoc(faces: seq<string>, k: nat, levels: seq<int>, repeats: nat)
    requires k < |faces|
    ensures CrossProduct(faces[..k + 1], levels, repeats) ==
            CrossProduct(faces[..k], levels, repeats) + LevelBlock(faces[k], levels, repeats)
  {
    PrefixSnoc(faces, k);
  }

  /**
   * The nested loops of the trial-list construction: for each face, each
   * level, each repeat 1..repeats, push that trial.
   */
  method ListDesign(faces: seq<string>, levels: seq<int>, repeats: nat) returns (list: seq<Trial>)
    ensures list == CrossProduct(faces, levels, repeats)
  {
    list := [];
    for fi := 0 to |faces|
      invariant list == CrossProduct(faces[..fi], levels, repeats)
    {
      var face := faces[fi];
      ghost var done := list;
      for gi := 0 to |levels|
        invariant list == done + LevelBlock(face, levels[..gi], repeats)
      {
        list := PushRepeats(list, face, levels[gi], repeats);
        LevelBlockSnoc(face, levels, gi, repeats);
        AppendAssoc(done, LevelBlock(face, levels[..gi], repeats), RepeatBlock(face, levels[gi], repeats));
      }
      assert levels[..|levels|] == levels;
      CrossProductSnoc(faces, fi, levels, repeats);
    }
    assert faces[..|faces|] == faces;
  }

  /** The innermost loop: push the trials of one face and one level, repeats 1..repeats. */
  method PushRepeats(list: seq<Trial>, face: string, gaze: int, repeats: nat) returns (extended: seq<Trial>)
    ensures extended == list + RepeatBlock(face, gaze, repeats)
  {
    extended := list;
    var r := 1;
    while r <= repeats
      invariant 1 <= r <= repeats + 1
      invariant extended == list + RepeatBlock(face, gaze, r - 1)
    {
      AppendAssoc(list, RepeatBlock(face, gaze, r - 1), [Trial(face, gaze, r)]);
      extended := extended + [Trial(face, gaze, r)];
      r := r + 1;
    }
  }

  /** The task's trial list: the design FACES × GAZE_LEVELS × 1..REPEATS, shuffled. */
  method MakeTrialList() returns (trials: seq<Trial>)
    ensures |trials| == |FACES| * |GAZE_LEVELS| * REPEATS == 110
    ensures forall t :: multiset(trials)[t] == if IsTrialOf(t, FACES, GAZE_LEVELS, REPEATS) then 1 else 0
  {
    var list := ListDesign(FACES, GAZE_LEVELS, REPEATS);
    trials := ShuffleList(list);
    PermutedDesign(trials);
  }

  /** The list placed in an array, shuffled in place, and read back. */
  method ShuffleList<T>(list: seq<T>) returns (shuffled: seq<T>)
    ensures multiset(shuffled) == multiset(list)
  {
    var a := new T[|list|](k requires 0 <= k < |list| => list[k]);
    assert a[..] == list;
    ghost var choices := Shuffle(a);
    shuffled := a[..];
  }
}
