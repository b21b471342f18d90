/**
 Books and their authors: each side keeps a list of the other, and the methods that change one
 list call back into the other object.  The book is the owning side.
 */
module Library {
  import opened Lists

  /** A collection with an element added at the end, unless it is there. */
  function With<T(==)>(s: seq<T>, x: T): seq<T> {
    if x in s then s else s + [x]
  }

  lemma WithHas<T>(s: seq<T>, x: T)
    requires NoDup(s)
    ensures NoDup(With(s, x)) && forall y :: y in With(s, x) <==> y in s || y == x
  {
    if x !in s {
      NoDupSnoc(s, x);
    }
  }

  /** removeElement: the first occurrence goes. */
  function WithoutOne<T(==)>(s: seq<T>, x: T): seq<T> {
    if s == [] then [] else if s[0] == x then s[1..] else [s[0]] + WithoutOne(s[1..], x)
  }

  lemma {:induction false} WithoutOneHas<T>(s: seq<T>, x: T)
    requires NoDup(s)
    ensures NoDup(WithoutOne(s, x))
    ensures forall y {:trigger y in s} {:trigger y in WithoutOne(s, x)} :: y in WithoutOne(s, x) <==> y in s && y != x
  {
    if s != [] {
      NoDupCut(s, 1);
      assert s == [s[0]] + s[1..] && s[0] in s[..1];
      WithoutOneHas(s[1..], x);
      if s[0] != x {
        NoDupAppend([s[0]], WithoutOne(s[1..], x));
      }
    }
  }

  /** Among these books and authors: nobody is listed twice, and an author of a book lists the book. */
  ghost predicate Consistent(books: set<Livre>, authors: set<Auteur>)
    reads books, authors
  {
    && (forall l :: l in books ==> NoDup(l.auteurs) && forall a :: a in l.auteurs ==> a in authors && l in a.livres)
    && (forall a :: a in authors ==> NoDup(a.livres) && forall l :: l in a.livres ==> l in books)
  }

  /** The converse: every book an author lists has that author. */
  ghost predicate Mutual(books: set<Livre>, authors: set<Auteur>)
    reads books, authors
  {
    forall a, l :: a in authors && l in a.livres && l in books ==> a in l.auteurs
  }

  class Livre {
    var auteurs: seq<Auteur>

    constructor ()
      ensures auteurs == []
    {
      auteurs := [];
    }

    /** addAuteur: list an author, and have the author list this book. */
    method AddAuteur(a: Auteur)
      modifies `auteurs, a`livres
      ensures auteurs == With(old(auteurs), a)
      ensures a.livres == if a in old(auteurs) then old(a.livres) else With(old(a.livres), this)
      decreases (if a in auteurs then 0 else 1) + (if this in a.livres then 0 else 1), 0
    {
      if a !in auteurs {
        auteurs := auteurs + [a];
        a.AddLivre(this);
      }
    }

    /** removeAuteur: the author goes from this list only. */
    method RemoveAuteur(a: Auteur)
      modifies `auteurs
      ensures auteurs == WithoutOne(old(auteurs), a)
    {
      auteurs := WithoutOne(auteurs, a);
    }

    /** Within a consistent library, listing an author keeps it consistent, and makes the two list each other. */
    method AddAuteurIn(a: Auteur, ghost books: set<Livre>, ghost authors: set<Auteur>)
      requires Consistent(books, authors) && this in books && a in authors
      modifies `auteurs, a`livres
      ensures Consistent(books, authors) && a in auteurs && this in a.livres
      ensures old(Mutual(books, authors)) ==> Mutual(books, authors)
      ensures forall b :: b in old(auteurs) ==> b in auteurs
    {
      WithHas(auteurs, a);
      WithHas(a.livres, this);
      AddAuteur(a);
      forall l | l in books ensures NoDup(l.auteurs) {
        assert old(NoDup(l.auteurs));
      }
      forall b | b in authors ensures NoDup(b.livres) {
        assert old(NoDup(b.livres));
      }
    }

    /** Taking an author off the list keeps the library consistent; the author goes on listing the book. */
    method RemoveAuteurIn(a: Auteur, ghost books: set<Livre>, ghost authors: set<Auteur>)
      requires Consistent(books, authors) && this in books && a in authors
      modifies `auteurs
      ensures Consistent(books, authors) && a !in auteurs && forall b :: b != a ==> (b in auteurs <==> b in old(auteurs))
      ensures Mutual(books, authors) <==> old(a !in auteurs && Mutual(books, authors))
    {
      WithoutOneHas(auteurs, a);
      RemoveAuteur(a);
      forall l | l in books ensures NoDup(l.auteurs) && forall b :: b in l.auteurs ==> b in old(l.auteurs) {
        assert old(NoDup(l.auteurs));
        WithoutOneHas(old(l.auteurs), a);
      }
      forall b | b in authors ensures NoDup(b.livres) {
        assert old(NoDup(b.livres));
      }
    }
  }

  class Auteur {
    var livres: seq<Livre>

    constructor ()
      ensures livres == []
    {
      livres := [];
    }

    /** addLivre: list a book, and have the book list this author. */
    method AddLivre(l: Livre)
      modifies `livres, l`auteurs
      ensures livres == With(old(livres), l)
      ensures l.auteurs == if l in old(livres) then old(l.auteurs) else With(old(l.auteurs), this)
      decreases (if this in l.auteurs then 0 else 1) + (if l in livres then 0 else 1), 1
    {
      if l !in livres {
        livres := livres + [l];
        l.AddAuteur(this);
      }
    }

    /** removeLivre: the book goes from this list, and if it was there, this author from the book's. */
    method RemoveLivre(l: Livre)
      modifies `livres, l`auteurs
      ensures livres == WithoutOne(old(livres), l)
      ensures l.auteurs == if l in old(livres) then WithoutOne(old(l.auteurs), this) else old(l.auteurs)
    {
      var found := l in livres;
      livres := WithoutOne(livres, l);
      if found {
        l.RemoveAuteur(this);
      }
    }

    /**
     Listing a book keeps the library consistent.  The book lists the author afterwards, unless the
     author listed the book before and the book did not list the author.
     */
    method AddLivreIn(l: Livre, ghost books: set<Livre>, ghost authors: set<Auteur>)
      requires Consistent(books, authors) && this in authors && l in books
      modifies `livres, l`auteurs
      ensures Consistent(books, authors) && l in livres
      ensures this in l.auteurs <==> !old(l in livres && this !in l.auteurs)
      ensures old(Mutual(books, authors)) ==> Mutual(books, authors)
    {
      WithHas(livres, l);
      WithHas(l.auteurs, this);
      AddLivre(l);
      forall k | k in books ensures NoDup(k.auteurs) {
        assert old(NoDup(k.auteurs));
      }
      forall b | b in authors ensures NoDup(b.livres) {
        assert old(NoDup(b.livres));
      }
    }

    /** Taking a book off the list takes the author off the book's, and keeps both directions as they were. */
    method RemoveLivreIn(l: Livre, ghost books: set<Livre>, ghost authors: set<Auteur>)
      requires Consistent(books, authors) && this in authors && l in books
      modifies `livres, l`auteurs
      ensures Consistent(books, authors) && l !in livres && this !in l.auteurs
      ensures old(Mutual(books, authors)) ==> Mutual(books, authors)
    {
      WithoutOneHas(livres, l);
      WithoutOneHas(l.auteurs, this);
      RemoveLivre(l);
      forall k | k in books ensures NoDup(k.auteurs) && forall b :: b in k.auteurs ==> b in old(k.auteurs) && (k == l ==> b != this) {
        assert old(NoDup(k.auteurs));
        WithoutOneHas(old(k.auteurs), this);
      }
      forall b | b in authors ensures NoDup(b.livres) && forall k :: k in b.livres <==> k in old(b.livres) && (b == this ==> k != l) {
        assert old(NoDup(b.livres));
        WithoutOneHas(old(b.livres), l);
      }
    }
  }

  /**
   From fresh objects: after an author was added to a book and removed from it, the author still lists
   the book, and adding the book to the author changes nothing; only adding the author to the book does.
   */
  method OneSided() returns (l: Livre, a: Auteur)
    ensures fresh(l) && fresh(a) && Consistent({l}, {a}) && !Mutual({l}, {a})
  {
    l := new Livre();
    a := new Auteur();
    l.AddAuteurIn(a, {l}, {a});
    l.RemoveAuteurIn(a, {l}, {a});
    a.AddLivreIn(l, {l}, {a});
  }
}
