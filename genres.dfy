/** The books of one catalog response and the genre list drawn from their subjects. */
module Genres {
  import opened Js

  /** A book as the page uses it: its id, its title and its subject tags, in the
      order the catalog lists them. Authors and cover formats only feed the card markup. */
  datatype Book = Book(id: int, title: string, subjects: seq<string>)

  /** Every subject of every book, book after book, repeats included: the order in which
      the nested loop of `extractGenres` visits them. */
  function AllSubjects(books: seq<Book>): (all: seq<string>) {
    if books == [] then []
    else AllSubjects(books[..|books| - 1]) + books[|books| - 1].subjects
  }

  /** A subject is listed exactly when some book carries it. */
  lemma {:induction false} AllSubjectsMembers(books: seq<Book>, g: string)
    ensures g in AllSubjects(books) <==> exists i :: 0 <= i < |books| && g in books[i].subjects
  {
    if books != [] {
      var p := books[..|books| - 1];
      AllSubjectsMembers(p, g);
      if g in AllSubjects(books) && g !in books[|books| - 1].subjects {
        var i :| 0 <= i < |p| && g in p[i].subjects;
        assert g in books[i].subjects;
      }
      if exists i :: 0 <= i < |books| && g in books[i].subjects {
        var i :| 0 <= i < |books| && g in books[i].subjects;
        if i < |p| {
          assert g in p[i].subjects;
        }
      }
    }
  }

  /** `extractGenres`: every subject of every book is added to a `Set`, whose iteration
      order is the order of first insertion. */
  method ExtractGenres(books: seq<Book>) returns (genres: seq<string>)
    ensures genres == Distinct(AllSubjects(books))
    ensures NoDuplicates(genres)
    ensures forall g :: g in genres <==> exists i :: 0 <= i < |books| && g in books[i].subjects
    ensures forall i, j :: 0 <= i < j < |genres| ==>
              IndexOf(AllSubjects(books), genres[i]) < IndexOf(AllSubjects(books), genres[j])
  {
    genres := [];
    var i := 0;
    while i < |books|
      invariant 0 <= i <= |books|
      invariant genres == Distinct(AllSubjects(books[..i]))
    {
      var subjects := books[i].subjects;
      ghost var done := AllSubjects(books[..i]);
      var j := 0;
      assert done + subjects[..0] == done;
      while j < |subjects|
        invariant 0 <= j <= |subjects|
        invariant genres == Distinct(done + subjects[..j])
      {
        AddSubjectStep(done, subjects, j);
        if subjects[j] !in genres {
          genres := genres + [subjects[j]];
        }
        j := j + 1;
      }
      AllSubjectsPrefix(books, i);
      assert subjects[..j] == subjects;
      i := i + 1;
    }
    assert books[..i] == books;
    GenreListProperties(books);
  }

  /** The three properties the genre list promises, stated of `Distinct`. */
  lemma GenreListProperties(books: seq<Book>)
    ensures NoDuplicates(Distinct(AllSubjects(books)))
    ensures forall g :: g in Distinct(AllSubjects(books)) <==>
              exists i :: 0 <= i < |books| && g in books[i].subjects
    ensures forall i, j :: 0 <= i < j < |Distinct(AllSubjects(books))| ==>
              IndexOf(AllSubjects(books), Distinct(AllSubjects(books))[i]) <
              IndexOf(AllSubjects(books), Distinct(AllSubjects(books))[j])
  {
    GenresMembers(books);
    DistinctFirstOccurrenceOrder(AllSubjects(books));
  }

  /** One `genres.add(subject)` call, seen on the visited prefix. */
  lemma AddSubjectStep(done: seq<string>, subjects: seq<string>, j: nat)
    requires j < |subjects|
    ensures Distinct(done + subjects[..j + 1]) ==
              if subjects[j] in Distinct(done + subjects[..j]) then Distinct(done + subjects[..j])
              else Distinct(done + subjects[..j]) + [subjects[j]]
  {
    assert done + subjects[..j + 1] == (done + subjects[..j]) + [subjects[j]];
    DistinctSnoc(done + subjects[..j], subjects[j]);
  }

  lemma AllSubjectsPrefix(books: seq<Book>, i: nat)
    requires i < |books|
    ensures AllSubjects(books[..i + 1]) == AllSubjects(books[..i]) + books[i].subjects
  {
    assert books[..i + 1][..i] == books[..i];
  }

  /** The genre list names exactly the subjects some book carries. */
  lemma GenresMembers(books: seq<Book>)
    ensures forall g :: g in Distinct(AllSubjects(books)) <==>
              exists i :: 0 <= i < |books| && g in books[i].subjects
  {
    var all := AllSubjects(books);
    forall g ensures g in Distinct(all) <==> exists i :: 0 <= i < |books| && g in books[i].subjects {
      AllSubjectsMembers(books, g);
      if g in all {
        var k :| 0 <= k < |all| && all[k] == g;
      }
    }
  }
}
