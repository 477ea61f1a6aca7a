/**
 * The service list page (users/views.py): a chain of filters over all
 * services, driven by the filter form declared beside the models, then an
 * optional ascending sort.
 */
module ServiceList {
  import opened Wrappers
  import opened Models

  /** Python truthiness of an optional numeric bound: given and not zero. */
  predicate Given(bound: Option<int>) {
    bound.Some? && bound.value != 0
  }

  /** A service meets every bound the query gives. */
  predicate MeetsQuery(s: Service, q: FilterQuery) {
    CategoryOk(s, q) && PriceMinOk(s, q) && PriceMaxOk(s, q) && DurationMinOk(s, q) && DurationMaxOk(s, q)
  }

  predicate CategoryOk(s: Service, q: FilterQuery) { q.category == "" || s.category == q.category }
  predicate PriceMinOk(s: Service, q: FilterQuery) { !Given(q.priceMin) || s.price >= q.priceMin.value }
  predicate PriceMaxOk(s: Service, q: FilterQuery) { !Given(q.priceMax) || s.price <= q.priceMax.value }
  predicate DurationMinOk(s: Service, q: FilterQuery) { !Given(q.durationMin) || s.duration >= q.durationMin.value }
  predicate DurationMaxOk(s: Service, q: FilterQuery) { !Given(q.durationMax) || s.duration <= q.durationMax.value }

  /** `queryset.filter(...)`: the rows that satisfy `keep`, in their order. */
  function Where(rows: seq<Service>, keep: Service -> bool): (r: seq<Service>)
    ensures forall s :: s in r <==> s in rows && keep(s)
    ensures multiset(r) <= multiset(rows)
  {
    if rows == [] then []
    else
      assert rows == [rows[0]] + rows[1..];
      if keep(rows[0]) then [rows[0]] + Where(rows[1..], keep)
      else Where(rows[1..], keep)
  }

  /** Lexicographic order on names, character by character. */
  predicate NameLe(a: string, b: string)
    decreases |a|
  {
    if a == [] then true
    else if b == [] then false
    else if a[0] != b[0] then a[0] < b[0]
    else NameLe(a[1..], b[1..])
  }

  lemma {:induction false} NameLeTotal(a: string, b: string)
    ensures NameLe(a, b) || NameLe(b, a)
    decreases |a|
  {
    if a != [] && b != [] && a[0] == b[0] {
      NameLeTotal(a[1..], b[1..]);
    }
  }

  /** `order_by(key)` compares by price, by duration, or by name. */
  predicate KeyLe(a: Service, b: Service, key: string) {
    if key == "price" then a.price <= b.price
    else if key == "duration" then a.duration <= b.duration
    else NameLe(a.name, b.name)
  }

  lemma KeyLeTotal(a: Service, b: Service, key: string)
    ensures KeyLe(a, b, key) || KeyLe(b, a, key)
  {
    NameLeTotal(a.name, b.name);
  }

  /** Each row is at most its successor under the sort key. */
  predicate Ascending(s: seq<Service>, key: string) {
    forall i :: 0 <= i < |s| - 1 ==> KeyLe(s[i], s[i + 1], key)
  }

  function Insert(x: Service, s: seq<Service>, key: string): (r: seq<Service>)
    requires Ascending(s, key)
    ensures Ascending(r, key)
    ensures multiset(r) == multiset(s) + multiset{x}
    ensures |r| == |s| + 1 && (r[0] == x || (s != [] && r[0] == s[0]))
  {
    if s == [] then [x]
    else if KeyLe(x, s[0], key) then [x] + s
    else
      KeyLeTotal(x, s[0], key);
      assert s == [s[0]] + s[1..];
      assert Ascending(s[1..], key) by {
        forall i | 0 <= i < |s| - 2 ensures KeyLe(s[1..][i], s[1..][i + 1], key) {
          assert KeyLe(s[i + 1], s[i + 2], key);
        }
      }
      var rest := Insert(x, s[1..], key);
      assert KeyLe(s[0], rest[0], key);
      [s[0]] + rest
  }

  /** `order_by(key)`: the same rows, ascending by `key`. */
  function SortBy(s: seq<Service>, key: string): (r: seq<Service>)
    ensures Ascending(r, key)
    ensures multiset(r) == multiset(s)
  {
    if s == [] then []
    else
      assert s == [s[0]] + s[1..];
      Insert(s[0], SortBy(s[1..], key), key)
  }

  /** One `if bound: services = services.filter(...)` step; `keep` holds of every row when the bound is absent. */
  function Narrow(rows: seq<Service>, given: bool, keep: Service -> bool): (r: seq<Service>)
    requires !given ==> forall s :: keep(s)
    ensures multiset(r) <= multiset(rows)
    ensures forall s :: s in r <==> s in rows && keep(s)
  {
    if given then Where(rows, keep) else rows
  }

  /** The filter chain of `service_list`, applied in the view's order. */
  function Filtered(all: seq<Service>, q: FilterQuery): (r: seq<Service>)
    ensures multiset(r) <= multiset(all)
    ensures forall s :: s in r <==> s in all && MeetsQuery(s, q)
  {
    var r1 := Narrow(all, q.category != "", (s: Service) => CategoryOk(s, q));
    var r2 := Narrow(r1, Given(q.priceMin), (s: Service) => PriceMinOk(s, q));
    var r3 := Narrow(r2, Given(q.priceMax), (s: Service) => PriceMaxOk(s, q));
    var r4 := Narrow(r3, Given(q.durationMin), (s: Service) => DurationMinOk(s, q));
    Narrow(r4, Given(q.durationMax), (s: Service) => DurationMaxOk(s, q))
  }

  /**
   * `service_list`: when the form is invalid (a missing category makes it
   * so) every service is listed unfiltered and unsorted; otherwise the
   * services meeting every given bound, sorted when a key is chosen.
   */
  function ServiceList(all: seq<Service>, q: FilterQuery): (r: seq<Service>)
    ensures !LiveFilterFormValid(q) ==> r == all
    ensures multiset(r) <= multiset(all)
    ensures LiveFilterFormValid(q) ==> forall s :: s in r <==> s in all && MeetsQuery(s, q)
    ensures LiveFilterFormValid(q) && q.sortBy != "" ==> Ascending(r, q.sortBy)
  {
    if !LiveFilterFormValid(q) then all
    else
      var filtered := Filtered(all, q);
      if q.sortBy != "" then
        var sorted := SortBy(filtered, q.sortBy);
        assert forall s :: s in sorted <==> s in multiset(filtered);
        sorted
      else filtered
  }

  /** A maximum price of 0 is falsy, so it sets no upper bound at all. */
  lemma ZeroPriceMaxIsNoBound(s: Service)
    requires s.category == "hair"
    ensures s in ServiceList([s], FilterQuery("hair", None, Some(0), None, None, ""))
  {
    assert "hair" in CategoryChoices;
  }
}
