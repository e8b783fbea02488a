/** Paged REST listings as `ci/github.py` reads them. */
module Pages {

  const PER_PAGE := 100

  function Min(a: nat, b: nat): nat {
    if a <= b then a else b
  }

  /** What an endpoint answers for one page, counted from 1. */
  function Page<T>(items: seq<T>, page: nat): seq<T>
    requires page >= 1
  {
    items[Min(PER_PAGE * (page - 1), |items|)..Min(PER_PAGE * page, |items|)]
  }
}
