/** The fee calculator of the admission server (app.py): a fixed price per
    subject, looked up by the trimmed, lower-cased subject name, and summed
    over the selected subjects. */
module Fees {
  import opened Text

  /** SUBJECT_FEES: price per subject, keyed by the normalised name. */
  const SubjectFees: map<string, int> := map[
    "bengali" := 500,
    "history" := 400,
    "geography" := 450,
    "sanskrit" := 350,
    "english" := 600,
    "computer" := 700
  ]

  /** The dearest subject in the table. */
  const MaxSubjectFee: int := 700

  /** `subject.strip().lower()`. */
  function Normalize(subject: string): (r: string)
    ensures r == [] || (!IsSpace(r[0]) && !IsSpace(r[|r| - 1]))
    ensures forall i :: 0 <= i < |r| ==> !('A' <= r[i] <= 'Z')
  {
    ToLower(Strip(subject))
  }

  /** `SUBJECT_FEES.get(subject.strip().lower(), 0)`: what one selected
      subject adds to the total; an unknown subject is free. */
  function SubjectFee(subject: string): (r: int)
    ensures 0 <= r <= MaxSubjectFee
  {
    PricesInRange();
    var key := Normalize(subject);
    if key in SubjectFees then SubjectFees[key] else 0
  }

  /** `calculate_fees`: the sum of the fees of the selected subjects, each
      occurrence counted. It is never negative and never more than the
      dearest fee once per selected subject. */
  function CalculateFees(subjects: seq<string>): (r: int)
    ensures 0 <= r <= MaxSubjectFee * |subjects|
  {
    if subjects == [] then 0 else SubjectFee(subjects[0]) + CalculateFees(subjects[1..])
  }

  // ---------------------------------------------------------------------
  // Lemmas
  // ---------------------------------------------------------------------

  /** Every price in the table is positive and at most MaxSubjectFee. */
  lemma PricesInRange()
    ensures forall k :: k in SubjectFees ==> 0 < SubjectFees[k] <= MaxSubjectFee
  {
  }

  /** A subject costs something exactly when its normalised name is in the
      table. */
  lemma SubjectFeeKnown(subject: string)
    ensures SubjectFee(subject) > 0 <==> Normalize(subject) in SubjectFees
  {
    PricesInRange();
  }

  /** The total is zero exactly when no selected subject is in the table. */
  lemma {:induction false} FeesZeroIffNoneKnown(subjects: seq<string>)
    ensures CalculateFees(subjects) == 0 <==>
            forall i :: 0 <= i < |subjects| ==> Normalize(subjects[i]) !in SubjectFees
  {
    if subjects != [] {
      SubjectFeeKnown(subjects[0]);
      FeesZeroIffNoneKnown(subjects[1..]);
      assert forall i :: 1 <= i < |subjects| ==> subjects[1..][i - 1] == subjects[i];
    }
  }

  /** The total of two selections made one after the other is the sum of
      their totals. */
  lemma {:induction false} FeesAdditive(a: seq<string>, b: seq<string>)
    ensures CalculateFees(a + b) == CalculateFees(a) + CalculateFees(b)
  {
    if a == [] {
      assert a + b == b;
    } else {
      assert (a + b)[0] == a[0] && (a + b)[1..] == a[1..] + b;
      FeesAdditive(a[1..], b);
    }
  }

  /** Selecting an already selected subject once more adds its fee once
      more: duplicates are not removed. */
  lemma FeesCountDuplicates(subjects: seq<string>, s: string)
    requires s in subjects
    ensures CalculateFees(subjects + [s]) == CalculateFees(subjects) + SubjectFee(s)
  {
    FeesAdditive(subjects, [s]);
  }

  /** Taking one selected subject out lowers the total by its fee. */
  lemma FeesRemoveOne(b: seq<string>, i: nat)
    requires i < |b|
    ensures CalculateFees(b) == SubjectFee(b[i]) + CalculateFees(b[..i] + b[i + 1..])
  {
    var front, x, back := b[..i], b[i], b[i + 1..];
    SplitAt(b, i);
    assert CalculateFees([x] + back) == SubjectFee(x) + CalculateFees(back) by {
      assert ([x] + back)[1..] == back;
    }
    FeesAdditive(front, [x] + back);
    FeesAdditive(front, back);
  }

  /** Dropping element `i` drops one occurrence of it from the multiset. */
  lemma MultisetWithout<T>(s: seq<T>, i: nat)
    requires i < |s|
    ensures multiset(s[..i] + s[i + 1..]) == multiset(s) - multiset{s[i]}
  {
    SplitAt(s, i);
  }

  /** A sequence is what comes before position `i`, the element there, and
      what comes after. */
  lemma SplitAt<T>(s: seq<T>, i: nat)
    requires i < |s|
    ensures s == s[..i] + ([s[i]] + s[i + 1..])
  {
    assert s[i..] == [s[i]] + s[i + 1..];
    assert s == s[..i] + s[i..];
  }

  /** The order in which subjects are selected does not matter. */
  lemma {:induction false} FeesIgnoreOrder(a: seq<string>, b: seq<string>)
    requires multiset(a) == multiset(b)
    ensures CalculateFees(a) == CalculateFees(b)
  {
    if a != [] {
      var i := MatchFirst(a, b);
      FeesIgnoreOrder(a[1..], b[..i] + b[i + 1..]);
      FeesRemoveOne(b, i);
    }
  }

  /** In a permutation `b` of `a`, some position holds `a[0]`, and the rest
      of `b` is a permutation of the rest of `a`. */
  lemma MatchFirst<T>(a: seq<T>, b: seq<T>) returns (i: nat)
    requires a != [] && multiset(a) == multiset(b)
    ensures i < |b| && b[i] == a[0]
    ensures multiset(a[1..]) == multiset(b[..i] + b[i + 1..])
  {
    assert a == [a[0]] + a[1..];
    assert a[0] in b by {
      assert a[0] in multiset(b);
    }
    i :| i < |b| && b[i] == a[0];
    MultisetWithout(b, i);
  }

  /** Whitespace around a subject name does not change its fee. */
  lemma SubjectFeeIgnoresPadding(p: string, subject: string, q: string)
    requires AllSpace(p) && AllSpace(q)
    ensures SubjectFee(p + subject + q) == SubjectFee(subject)
  {
    StripPadded(p, subject, q);
  }

  /** Two names that differ only in the case of their letters cost the same. */
  lemma SubjectFeeIgnoresCase(a: string, b: string)
    requires ToLower(a) == ToLower(b)
    ensures SubjectFee(a) == SubjectFee(b)
  {
    LowerStrip(a);
    LowerStrip(b);
  }
}
