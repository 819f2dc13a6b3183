/**
 * The explore page: the public quizzes of the store, narrowed by a search term that
 * must occur, ignoring letter case, in the quiz's title or in its description.
 */
module Explore {
  import opened Common
  import opened Types

  function IsPublic(): Quiz -> bool {
    (q: Quiz) => q.isPublic
  }

  /** `quizzes.filter(quiz => quiz.isPublic)` */
  function PublicQuizzes(quizzes: seq<Quiz>): (r: seq<Quiz>)
    ensures forall i :: 0 <= i < |r| ==> r[i].isPublic
  {
    Filter(quizzes, IsPublic())
  }

  /** The search predicate for a term already lower-cased. */
  predicate MatchesLowered(q: Quiz, loweredTerm: string) {
    Contains(Lower(q.title), loweredTerm) || Contains(Lower(q.description), loweredTerm)
  }

  function Matching(loweredTerm: string): Quiz -> bool {
    (q: Quiz) => MatchesLowered(q, loweredTerm)
  }

  /** `publicQuizzes.filter(...)`: the term is lower-cased once, and so are title and description. */
  function FilteredQuizzes(quizzes: seq<Quiz>, searchTerm: string): seq<Quiz> {
    Filter(PublicQuizzes(quizzes), Matching(Lower(searchTerm)))
  }

  /** A quiz is listed exactly when it is stored, public, and its title or description
      contains the term at some position once both are lower-cased. */
  lemma ListedIff(quizzes: seq<Quiz>, searchTerm: string, q: Quiz)
    ensures q in FilteredQuizzes(quizzes, searchTerm) <==>
      q in quizzes && q.isPublic &&
      ((exists i :: OccursAt(Lower(q.title), Lower(searchTerm), i)) ||
       (exists i :: OccursAt(Lower(q.description), Lower(searchTerm), i)))
  {
    var pub := PublicQuizzes(quizzes);
    var r := FilteredQuizzes(quizzes, searchTerm);
    if q in r {
      var k :| 0 <= k < |r| && r[k] == q;
      assert q in pub && MatchesLowered(q, Lower(searchTerm));
      var m :| 0 <= m < |pub| && pub[m] == q;
      assert q in quizzes && q.isPublic;
    }
    if q in quizzes && q.isPublic && MatchesLowered(q, Lower(searchTerm)) {
      var k :| 0 <= k < |quizzes| && quizzes[k] == q;
      assert q in pub;
      var m :| 0 <= m < |pub| && pub[m] == q;
    }
  }

  /** With an empty search box every public quiz is listed, in store order. */
  lemma EmptySearchListsAllPublic(quizzes: seq<Quiz>)
    ensures FilteredQuizzes(quizzes, "") == PublicQuizzes(quizzes)
  {
    var pub := PublicQuizzes(quizzes);
    forall i | 0 <= i < |pub| ensures Matching(Lower(""))(pub[i]) {
      ContainsEmpty(Lower(pub[i].title));
    }
    FilterAll(pub, Matching(Lower("")));
  }

  /** The listing keeps the store's order: it commutes with splitting the store anywhere. */
  lemma ListingKeepsOrder(a: seq<Quiz>, b: seq<Quiz>, searchTerm: string)
    ensures FilteredQuizzes(a + b, searchTerm) == FilteredQuizzes(a, searchTerm) + FilteredQuizzes(b, searchTerm)
  {
    FilterAppend(a, b, IsPublic());
    FilterAppend(PublicQuizzes(a), PublicQuizzes(b), Matching(Lower(searchTerm)));
  }

  /** The search ignores the case of the term: typing it in capitals lists the same quizzes. */
  lemma SearchIgnoresCase(quizzes: seq<Quiz>, searchTerm: string)
    ensures FilteredQuizzes(quizzes, Upper(searchTerm)) == FilteredQuizzes(quizzes, searchTerm)
  {
    LowerOfUpper(searchTerm);
  }

  /** A private quiz is never listed, whatever the term. */
  lemma PrivateNeverListed(quizzes: seq<Quiz>, searchTerm: string, q: Quiz)
    requires !q.isPublic
    ensures q !in FilteredQuizzes(quizzes, searchTerm)
  {
    ListedIff(quizzes, searchTerm, q);
  }
}
