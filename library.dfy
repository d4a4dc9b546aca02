/**
 * The library system of python_examples/model_script.py: authors and books
 * as values, and a `Library` whose catalog maps each ISBN to the book
 * stored under it.
 */
module LibraryCatalog {
  import opened Wrappers
  import opened Text

  datatype Author = Author(name: string, biography: string)

  datatype Book = Book(title: string, author: Author, isbn: string)

  /** `Book.describe()`: `"<title>" by <author name> (ISBN: <isbn>)`. */
  function Describe(book: Book): (d: string)
    ensures |d| == |book.title| + |book.author.name| + |book.isbn| + 15
    ensures d[0] == '"' && d[|d| - 1] == ')'
  {
    "\"" + book.title + "\" by " + book.author.name + " (ISBN: " + book.isbn + ")"
  }

  /** The example of the docstring. */
  lemma DescribeExample(biography: string)
    ensures Describe(Book("1984", Author("George Orwell", biography), "1234567890")) == "\"1984\" by George Orwell (ISBN: 1234567890)"
  {
    var b := Book("1984", Author("George Orwell", biography), "1234567890");
    assert "\"" + b.title + "\" by " == "\"1984\" by ";
    assert "\"1984\" by " + b.author.name == "\"1984\" by George Orwell";
    assert "\"1984\" by George Orwell" + " (ISBN: " + b.isbn == "\"1984\" by George Orwell (ISBN: 1234567890";
  }

  /** A title without double quotes is the text between the first two quotes of the description. */
  lemma DescribeTitle(book: Book)
    requires '"' !in book.title
    ensures var d := Describe(book); d[0] == '"' && d[1..1 + |book.title|] == book.title && d[1 + |book.title|] == '"'
  {
  }

  /** Text split at the first occurrence of a delimiter: the part before it determines the rest. */
  lemma FirstDelimiter(t1: string, r1: string, t2: string, r2: string, c: char)
    requires t1 + [c] + r1 == t2 + [c] + r2
    requires c !in t1 && c !in t2
    ensures t1 == t2 && r1 == r2
  {
    var x := t1 + [c] + r1;
    assert forall j | 0 <= j < |t1| :: x[j] != c by {
      forall j | 0 <= j < |t1| ensures x[j] != c {
        assert x[j] == t1[j];
      }
    }
    assert forall j | 0 <= j < |t2| :: x[j] != c by {
      forall j | 0 <= j < |t2| ensures x[j] != c {
        assert x[j] == t2[j];
      }
    }
    assert x[|t1|] == c && x[|t2|] == c;
    assert |t1| == |t2|;
    assert t1 == x[..|t1|] == t2;
    assert r1 == x[|t1| + 1..] == r2;
  }

  /** Text split at the last occurrence of a delimiter: the part after it determines the rest. */
  lemma LastDelimiter(p1: string, s1: string, p2: string, s2: string, c: char)
    requires p1 + [c] + s1 == p2 + [c] + s2
    requires c !in s1 && c !in s2
    ensures p1 == p2 && s1 == s2
  {
    var x := p1 + [c] + s1;
    assert forall j | |p1| < j < |x| :: x[j] != c by {
      forall j | |p1| < j < |x| ensures x[j] != c {
        assert x[j] == s1[j - |p1| - 1];
      }
    }
    assert forall j | |p2| < j < |x| :: x[j] != c by {
      forall j | |p2| < j < |x| ensures x[j] != c {
        assert x[j] == s2[j - |p2| - 1];
      }
    }
    assert x[|p1|] == c && x[|p2|] == c;
    assert |p1| == |p2|;
    assert p1 == x[..|p1|] == p2;
    assert s1 == x[|p1| + 1..] == s2;
  }

  /**
   * The description determines the book's title, author name and ISBN when
   * titles hold no double quote and ISBNs no space; the biography plays no part.
   */
  lemma DescribeInjective(b1: Book, b2: Book)
    requires '"' !in b1.title && '"' !in b2.title
    requires ' ' !in b1.isbn && ' ' !in b2.isbn
    requires Describe(b1) == Describe(b2)
    ensures b1.title == b2.title && b1.author.name == b2.author.name && b1.isbn == b2.isbn
  {
    DescribeSplit(b1);
    DescribeSplit(b2);
    FirstDelimiter(b1.title, Byline(b1), b2.title, Byline(b2), '"');
    BylineSplit(b1);
    BylineSplit(b2);
    var m1, m2 := b1.author.name + " (ISBN:", b2.author.name + " (ISBN:";
    LastDelimiter(m1, b1.isbn, m2, b2.isbn, ' ');
    assert b1.author.name == m1[..|b1.author.name|] && b2.author.name == m2[..|b2.author.name|];
  }

  /** What follows the closing quote of the title. */
  function Byline(book: Book): string {
    " by " + book.author.name + " (ISBN: " + book.isbn + ")"
  }

  lemma DescribeSplit(book: Book)
    ensures |Describe(book)| >= 1 && Describe(book)[1..] == book.title + ['"'] + Byline(book)
  {
    assert Describe(book) == ['"'] + (book.title + ['"'] + Byline(book));
  }

  lemma BylineSplit(book: Book)
    ensures |Byline(book)| >= 5
    ensures Byline(book)[4..|Byline(book)| - 1] == book.author.name + " (ISBN:" + [' '] + book.isbn
  {
    var r := Byline(book);
    var m := book.author.name + " (ISBN:" + [' '] + book.isbn;
    assert r == " by " + m + ")";
  }

  /** A catalog keeps each book under its own ISBN. */
  ghost predicate KeyedByIsbn(catalog: map<string, Book>) {
    forall k | k in catalog :: catalog[k].isbn == k
  }

  /** In an ISBN-keyed catalog, a book is stored exactly when its ISBN maps to it. */
  lemma StoredBook(catalog: map<string, Book>, b: Book)
    requires KeyedByIsbn(catalog)
    ensures b in catalog.Values <==> b.isbn in catalog && catalog[b.isbn] == b
  {
    if b in catalog.Values {
      var k :| k in catalog && catalog[k] == b;
    }
  }

  /** `Library`: a catalog from ISBN to book. */
  class Library {
    var catalog: map<string, Book>

    ghost predicate Valid()
      reads this
    {
      KeyedByIsbn(catalog)
    }

    /** A new library has an empty catalog. */
    constructor()
      ensures Valid() && catalog == map[]
    {
      catalog := map[];
    }

    /** `add_book`: stores the book under its ISBN, replacing any book already there. */
    method AddBook(book: Book)
      requires Valid()
      modifies this
      ensures Valid()
      ensures catalog == old(catalog)[book.isbn := book]
    {
      catalog := catalog[book.isbn := book];
    }

    /** `remove_book`: takes out and returns the book stored under the ISBN, or `None` if there is none. */
    method RemoveBook(isbn: string) returns (removed: Option<Book>)
      requires Valid()
      modifies this
      ensures Valid()
      ensures isbn in old(catalog) ==> removed == Some(old(catalog)[isbn]) && catalog == old(catalog) - {isbn}
      ensures isbn !in old(catalog) ==> removed == None && catalog == old(catalog)
    {
      if isbn in catalog {
        removed := Some(catalog[isbn]);
        catalog := catalog - {isbn};
      } else {
        removed := None;
      }
    }

    /** `add_book` of a book under a new ISBN followed by `remove_book` of that ISBN: nothing changes. */
    method AddThenRemove(book: Book) returns (removed: Option<Book>)
      requires Valid() && book.isbn !in catalog
      modifies this
      ensures Valid() && catalog == old(catalog) && removed == Some(book)
    {
      AddBook(book);
      removed := RemoveBook(book.isbn);
    }

    /** `remove_book` of a stored ISBN followed by `add_book` of the book it returned: nothing changes. */
    method RemoveThenAdd(isbn: string) returns (removed: Option<Book>)
      requires Valid() && isbn in catalog
      modifies this
      ensures Valid() && catalog == old(catalog) && removed == Some(old(catalog)[isbn])
    {
      removed := RemoveBook(isbn);
      AddBook(removed.value);
    }

    /**
     * The stored books that satisfy `p`, each once, listed in some order of
     * their ISBNs; there are as many as there are ISBNs whose book satisfies `p`.
     */
    method Select(p: Book -> bool) returns (books: seq<Book>)
      requires Valid()
      ensures forall b :: b in books <==> b in catalog.Values && p(b)
      ensures Distinct(books)
      ensures |books| == |set k | k in catalog && p(catalog[k])|
    {
      var todo := catalog.Keys;
      books := [];
      while todo != {}
        invariant todo <= catalog.Keys
        invariant forall b :: b in books <==> b.isbn in catalog && b.isbn !in todo && catalog[b.isbn] == b && p(b)
        invariant Distinct(books)
        invariant |books| == |set k | k in catalog && k !in todo && p(catalog[k])|
        decreases |todo|
      {
        var k :| k in todo;
        ghost var done := set k' | k' in catalog && k' !in todo && p(catalog[k']);
        todo := todo - {k};
        if p(catalog[k]) {
          assert catalog[k] !in books;
          DistinctSnoc(books, catalog[k]);
          books := books + [catalog[k]];
          assert (set k' | k' in catalog && k' !in todo && p(catalog[k'])) == done + {k};
        } else {
          assert (set k' | k' in catalog && k' !in todo && p(catalog[k'])) == done;
        }
      }
      assert (set k | k in catalog && k !in todo && p(catalog[k])) == (set k | k in catalog && p(catalog[k]));
      forall b ensures b in books <==> b in catalog.Values && p(b) {
        StoredBook(catalog, b);
      }
    }

    /** `search_by_title`: the stored books whose title contains the keyword, ignoring case. */
    method SearchByTitle(keyword: string) returns (books: seq<Book>)
      requires Valid()
      ensures forall b :: b in books <==> b in catalog.Values && ContainsIgnoringCase(b.title, keyword)
      ensures Distinct(books)
      ensures forall b, i: nat | b in catalog.Values && OccursAt(b.title, keyword, i) :: b in books
    {
      books := Select((b: Book) => ContainsIgnoringCase(b.title, keyword));
      forall b, i: nat | b in catalog.Values && OccursAt(b.title, keyword, i) ensures b in books {
        ExactMatchIgnoringCase(b.title, keyword, i);
      }
    }

    /** `search_by_author`: the stored books whose author's name contains the given name, ignoring case. */
    method SearchByAuthor(authorName: string) returns (books: seq<Book>)
      requires Valid()
      ensures forall b :: b in books <==> b in catalog.Values && ContainsIgnoringCase(b.author.name, authorName)
      ensures Distinct(books)
      ensures books == [] <==> forall k | k in catalog :: !ContainsIgnoringCase(catalog[k].author.name, authorName)
    {
      books := Select((b: Book) => ContainsIgnoringCase(b.author.name, authorName));
      if books != [] {
        assert books[0] in books;
      }
    }

    /** `list_books`: every stored book exactly once, one per ISBN. */
    method ListBooks() returns (books: seq<Book>)
      requires Valid()
      ensures forall b :: b in books <==> b in catalog.Values
      ensures Distinct(books)
      ensures |books| == |catalog|
    {
      var any := (b: Book) => true;
      books := Select(any);
      assert (set k | k in catalog && any(catalog[k])) == catalog.Keys;
      assert |catalog.Keys| == |catalog|;
    }
  }
}
