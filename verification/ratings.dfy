/** The `/submit` handler of the ratings server (server.js): a rating in
    [0, 100] is appended to the submissions list under a generated user
    label; anything else is refused and the list is left alone. */
module Ratings {
  import opened Wrappers
  import opened Text

  const MinRating: int := 0
  const MaxRating: int := 100
  const DefaultComment: string := "No comment provided."

  /** One stored submission: `{ user, rating, comment }`. */
  datatype Entry = Entry(user: string, rating: int, comment: string)

  /** Status 200 with 'Submission saved successfully!', or status 400 with
      'Invalid rating. Rating must be between 0 and 100.' */
  datatype Response = Saved | InvalidRating

  /** The guard: a rating is refused when it is missing, below 0 or above
      100. */
  predicate RatingAccepted(rating: Option<int>) {
    !(rating.None? || rating.value < MinRating || rating.value > MaxRating)
  }

  /** `User ${n}`. */
  function UserLabel(n: nat): string {
    "User " + Decimal(n)
  }

  /** `comment || 'No comment provided.'`: the comment when it is truthy (a
      non-empty string), the default otherwise. */
  function CommentOrDefault(comment: Option<string>): (r: string)
    ensures r != ""
    ensures comment.Some? && comment.value != "" ==> r == comment.value
    ensures comment.None? || comment.value == "" ==> r == DefaultComment
  {
    if comment.Some? && comment.value != "" then comment.value else DefaultComment
  }

  /** Every entry `i` carries the label `User i+1` and an accepted rating:
      what a list built only by `/submit` from an empty file looks like. */
  ghost predicate Labelled(entries: seq<Entry>) {
    forall i :: 0 <= i < |entries| ==>
      entries[i].user == UserLabel(i + 1) && RatingAccepted(Some(entries[i].rating))
  }

  /** The submissions list, as kept in submissions.json. */
  class SubmissionLog {
    var entries: seq<Entry>

    /** The file is created holding `[]`. */
    constructor ()
      ensures entries == []
    {
      entries := [];
    }

    /** `POST /submit`. */
    method Submit(rating: Option<int>, comment: Option<string>) returns (response: Response)
      modifies this
      ensures !RatingAccepted(rating) ==> response == InvalidRating && entries == old(entries)
      ensures RatingAccepted(rating) ==>
                response == Saved &&
                entries == old(entries) +
                  [Entry(UserLabel(|old(entries)| + 1), rating.value, CommentOrDefault(comment))]
      ensures Labelled(old(entries)) ==> Labelled(entries)
    {
      if rating.None? || rating.value < MinRating || rating.value > MaxRating {
        return InvalidRating;
      }
      var submissions := entries;
      var entry := Entry(UserLabel(|submissions| + 1), rating.value, CommentOrDefault(comment));
      submissions := submissions + [entry];
      entries := submissions;
      response := Saved;
    }
  }

  // ---------------------------------------------------------------------
  // Lemmas
  // ---------------------------------------------------------------------

  /** The bounds are inclusive: 0 and 100 are accepted, -1, 101 and a
      missing rating are not. */
  lemma RatingBounds()
    ensures RatingAccepted(Some(0)) && RatingAccepted(Some(100))
    ensures !RatingAccepted(Some(-1)) && !RatingAccepted(Some(101)) && !RatingAccepted(None)
  {
  }

  /** Different counts give different labels. */
  lemma UserLabelInjective(a: nat, b: nat)
    requires UserLabel(a) == UserLabel(b)
    ensures a == b
  {
    assert Decimal(a) == UserLabel(a)[5..];
    assert Decimal(b) == UserLabel(b)[5..];
    DecimalInjective(a, b);
  }

  /** In a list built only by `/submit`, no two entries share a user label. */
  lemma LabelledUsersDistinct(entries: seq<Entry>, i: nat, j: nat)
    requires Labelled(entries)
    requires i < j < |entries|
    ensures entries[i].user != entries[j].user
  {
    if entries[i].user == entries[j].user {
      UserLabelInjective(i + 1, j + 1);
    }
  }

  /** The first two submissions are labelled `User 1` and `User 2`. */
  lemma FirstLabels()
    ensures UserLabel(1) == "User 1" && UserLabel(2) == "User 2"
  {
  }
}
