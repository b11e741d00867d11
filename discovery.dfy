/**
 Finding the Locust classes among a loaded module's attributes (`is_locust`
 and the filter over `vars(imported)`).
 */
module Discovery {

  /**
   A module attribute, reduced to what `is_locust` asks of it: whether it is a
   class (`inspect.isclass`), whether it is a subclass of `Locust` (`issubclass`,
   only consulted for classes), and its identity.
   */
  datatype Decl = Decl(isClass: bool, locustSubclass: bool, qualifiedName: string)

  /** `_internals`: the classes excluded by identity. The source leaves it empty. */
  const Internals: seq<Decl> := []

  /** The base `Locust` class itself. */
  const LocustBase := Decl(true, true, "core.Locust")

  /** Names that start with `_` are private. */
  predicate IsPrivate(name: string)
  {
    |name| > 0 && name[0] == '_'
  }

  /** `is_locust((name, item))`: a public subclass of `Locust` that is not one of the internals. */
  predicate IsLocust(name: string, item: Decl)
  {
    item.isClass && item.locustSubclass && item !in Internals && !IsPrivate(name)
  }

  /** `dict(filter(is_locust, attrs.items()))`. */
  function Catalog(attrs: map<string, Decl>): (locusts: map<string, Decl>)
    ensures forall n :: n in locusts <==> n in attrs && IsLocust(n, attrs[n])
    ensures forall n :: n in locusts ==> locusts[n] == attrs[n]
  {
    map n | n in attrs && IsLocust(n, attrs[n]) :: attrs[n]
  }

  /** Every catalog entry is a public Locust class: no private name and no non-class survives. */
  lemma CatalogEntriesAreLocusts(attrs: map<string, Decl>, n: string)
    requires n in Catalog(attrs)
    ensures !IsPrivate(n) && Catalog(attrs)[n].isClass && Catalog(attrs)[n].locustSubclass
  {
  }

  /** Filtering a catalog again changes nothing. */
  lemma CatalogIdempotent(attrs: map<string, Decl>)
    ensures Catalog(Catalog(attrs)) == Catalog(attrs)
  {
    var c := Catalog(attrs);
    assert forall n :: n in Catalog(c) <==> n in c;
  }

  /**
   The filter works name by name: the catalog of `a` overridden by `b` is the
   catalog of `a`, without the names `b` redefines, overridden by the catalog of `b`.
   */
  lemma CatalogOfUnion(a: map<string, Decl>, b: map<string, Decl>)
    ensures Catalog(a + b) == (Catalog(a) - b.Keys) + Catalog(b)
  {
    var l, r := Catalog(a + b), (Catalog(a) - b.Keys) + Catalog(b);
    forall n | n in l
      ensures n in r && l[n] == r[n]
    {
      if n in b {
        assert n in Catalog(b);
      } else {
        assert n in Catalog(a);
      }
    }
    forall n | n in r
      ensures n in l
    {
      if n in Catalog(b) {
        assert (a + b)[n] == b[n];
      } else {
        assert n in Catalog(a) && n !in b;
      }
    }
  }

  /**
   A module declaring `Foo` (a Locust subclass), `_Bar` (a private one) and `Base`
   (the base class itself) yields `Foo` and, because `_internals` is empty, `Base`.
   */
  lemma BaseClassIsListed(foo: Decl, bar: Decl)
    requires foo.isClass && foo.locustSubclass && bar.isClass && bar.locustSubclass
    ensures Catalog(map["Foo" := foo, "_Bar" := bar, "Base" := LocustBase]) == map["Foo" := foo, "Base" := LocustBase]
  {
    var attrs := map["Foo" := foo, "_Bar" := bar, "Base" := LocustBase];
    assert IsPrivate("_Bar") && !IsPrivate("Foo") && !IsPrivate("Base");
    assert Catalog(attrs).Keys == {"Foo", "Base"};
  }
}
