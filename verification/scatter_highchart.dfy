/** The scatter-chart helper of the dashboard's browser tests: it reads the SVG `path`
    elements of a rendered scatter plot, recovers each marker's coordinates from its `d`
    attribute (`getCoordinate`), collects them in document order (`Elements`) and orders
    them by their top edge (`sortByH`).

    The path elements come from the chart base class, which is not part of this model: they
    arrive here as a sequence of optional `d` attribute values. JavaScript's `Number(...)` is
    the parameter `number`. */
module ScatterHighchart {
  import opened Results
  import opened PathRegex

  /** The record `getCoordinate` builds (`IHighScatter`): the four edges of a chart element and
      the optional vertices x, y1, y2, y3. None is `undefined`. */
  datatype Coordinate = Coordinate(
    top: Option<real>, left: Option<real>, right: Option<real>, bottom: Option<real>,
    x: Option<real>, y1: Option<real>, y2: Option<real>, y3: Option<real>)

  /** The three errors `getCoordinate` throws. */
  datatype ScatterError =
    | MissingD(index: nat)  // the idx-th path element has no (or an empty) "d" attribute
    | InvalidD(index: nat)  // the idx-th path element has an invalid "d" attribute
    | TipEqualsLength       // "Horizontal tip is equal to vertical length"

  /** `strCords.map((s) => Number(s))` */
  function Numbers(number: string -> real, caps: seq<string>): (v: seq<real>)
    ensures |v| == |caps|
    ensures forall i :: 0 <= i < |caps| ==> v[i] == number(caps[i])
  {
    seq(|caps|, i requires 0 <= i < |caps| => number(caps[i]))
  }

  /** Array destructuring `const [.., v_i, ..] = v`: the i-th element, `undefined` past the end. */
  function At(v: seq<real>, i: nat): Option<real> {
    if i < |v| then Some(v[i]) else None
  }

  /** `getCoordinate(element, idx)`, where d is the element's `d` attribute (None when absent).
      The arc template is tried first; the quadrilateral template only when it does not match. */
  function GetCoordinate(number: string -> real, d: Option<string>, idx: nat): (r: Result<Coordinate, ScatterError>)
    ensures r == Failure(MissingD(idx)) <==> d == None || d == Some("")
    ensures r.Failure? ==> r.error in {MissingD(idx), InvalidD(idx), TipEqualsLength}
  {
    if d == None || d == Some("") then Failure(MissingD(idx))
    else match Match(ArcTemplate, d.value)
      case None => (
        match Match(QuadTemplate, d.value)
        case None => Failure(InvalidD(idx))
        case Some(caps) =>
          var v := Numbers(number, caps);
          var x1, y1, x2, y2 := At(v, 0), At(v, 1), At(v, 2), At(v, 3);
          var x3, y3, x4, y4 := At(v, 4), At(v, 5), At(v, 6), At(v, 7);
          Success(Coordinate(top := y4, left := x4, right := x3, bottom := x2,
                             x := x1, y1 := y1, y2 := y2, y3 := y3)))
      case Some(caps) =>
        // dReg has four groups, but six names are destructured: the last two are undefined.
        var v := Numbers(number, caps);
        var x, y1, horTip, vertTip := At(v, 0), At(v, 1), At(v, 2), At(v, 3);
        var yChange, height := At(v, 4), At(v, 5);
        if horTip == vertTip then Failure(TipEqualsLength)
        else Success(Coordinate(top := height, left := y1, right := yChange, bottom := x,
                                x := None, y1 := None, y2 := None, y3 := None))
  }

  /** An arc marker `M x y A 3 3 0 1 1 a b Z`: an error when a and b are the same number;
      otherwise bottom is x and left is y, while right and top stay undefined. */
  lemma ArcCoordinate(number: string -> real, c: seq<string>, idx: nat)
    requires |c| == 4 && AllTokens(c)
    ensures GetCoordinate(number, Some(ArcPath(c)), idx) ==
      if number(c[2]) == number(c[3]) then Failure(TipEqualsLength)
      else Success(Coordinate(top := None, left := Some(number(c[1])), right := None,
                              bottom := Some(number(c[0])),
                              x := None, y1 := None, y2 := None, y3 := None))
  {
    ArcMatchIff(ArcPath(c), c);
    assert ArcPath(c)[0] == 'M';
  }

  /** A quadrilateral marker `M x1 y1 L x2 y2 L x3 y3 L x4 y4 Z`: x is x1, bottom x2, right x3,
      left x4, top y4, and y1, y2, y3 are the first three y values. */
  lemma QuadCoordinate(number: string -> real, q: seq<string>, idx: nat)
    requires |q| == 8 && AllTokens(q)
    ensures GetCoordinate(number, Some(QuadPath(q)), idx) ==
      Success(Coordinate(top := Some(number(q[7])), left := Some(number(q[6])),
                         right := Some(number(q[4])), bottom := Some(number(q[2])),
                         x := Some(number(q[0])), y1 := Some(number(q[1])),
                         y2 := Some(number(q[3])), y3 := Some(number(q[5]))))
  {
    ArcRejectsQuadPath(q);
    QuadMatchIff(QuadPath(q), q);
    assert QuadPath(q)[0] == 'M';
  }

  /** A present, non-empty attribute is reported invalid exactly when it is neither an arc
      marker nor a quadrilateral marker. */
  lemma InvalidIffNoTemplate(number: string -> real, s: string, idx: nat)
    requires s != ""
    ensures GetCoordinate(number, Some(s), idx) == Failure(InvalidD(idx)) <==>
      (forall c :: |c| == 4 && AllTokens(c) ==> s != ArcPath(c)) &&
      (forall c :: |c| == 8 && AllTokens(c) ==> s != QuadPath(c))
  {
    var r := GetCoordinate(number, Some(s), idx);
    if r == Failure(InvalidD(idx)) {
      forall c | |c| == 4 && AllTokens(c) ensures s != ArcPath(c) {
        ArcMatchIff(s, c);
      }
      forall c | |c| == 8 && AllTokens(c) ensures s != QuadPath(c) {
        QuadMatchIff(s, c);
      }
    } else {
      match Match(ArcTemplate, s)
      case Some(c) =>
        ArcMatchIff(s, c);
      case None =>
        var c := Match(QuadTemplate, s).value;
        QuadMatchIff(s, c);
    }
  }

  /** `Array.prototype.map` with a callback given the element and its index, from position k
      on; a callback that throws aborts the whole call with its error. */
  function MapIndexedFrom<T, U, E>(f: (T, nat) -> Result<U, E>, xs: seq<T>, k: nat): (r: Result<seq<U>, E>)
    requires k <= |xs|
    ensures r.Success? <==> forall i :: k <= i < |xs| ==> f(xs[i], i).Success?
    ensures r.Success? ==> (|r.value| == |xs| - k &&
      forall i :: k <= i < |xs| ==> f(xs[i], i) == Success(r.value[i - k]))
    ensures r.Failure? ==>
      exists i :: k <= i < |xs| && f(xs[i], i) == Failure(r.error) &&
        forall j :: k <= j < i ==> f(xs[j], j).Success?
    decreases |xs| - k
  {
    if k == |xs| then Success([])
    else match f(xs[k], k)
      case Failure(e) => Failure(e)
      case Success(y) =>
        match MapIndexedFrom(f, xs, k + 1)
        case Failure(e) => Failure(e)
        case Success(ys) =>
          var all := [y] + ys;
          assert all[0] == y;
          assert forall j :: 1 <= j < |all| ==> all[j] == ys[j - 1];
          Success(all)
  }

  /** `Elements`: one record per path element, in order, the i-th read with index i; the
      first element that throws aborts the whole call with its error. */
  function Elements(number: string -> real, ds: seq<Option<string>>): (r: Result<seq<Coordinate>, ScatterError>)
    ensures r.Success? ==> (|r.value| == |ds| &&
      forall i :: 0 <= i < |ds| ==> GetCoordinate(number, ds[i], i) == Success(r.value[i]))
    ensures r.Failure? <==> exists i :: 0 <= i < |ds| && GetCoordinate(number, ds[i], i).Failure?
    ensures r.Failure? ==>
      exists i :: 0 <= i < |ds| &&
        GetCoordinate(number, ds[i], i) == Failure(r.error) &&
        forall j :: 0 <= j < i ==> GetCoordinate(number, ds[j], j).Success?
  {
    MapIndexedFrom((d, i) => GetCoordinate(number, d, i), ds, 0)
  }

  /** Every record has a defined top. */
  predicate AllTopsDefined(s: seq<Coordinate>) {
    forall c :: c in s ==> c.top.Some?
  }

  predicate TopAtMost(a: Coordinate, b: Coordinate) {
    a.top.Some? && b.top.Some? && a.top.value <= b.top.value
  }

  /** Ordered by non-decreasing top. */
  predicate SortedByTop(s: seq<Coordinate>) {
    forall i, j :: 0 <= i < j < |s| ==> TopAtMost(s[i], s[j])
  }

  /** The comparator `(a, b) => a.top - b.top`. With an undefined top the difference is NaN,
      which the sort treats as +0, i.e. as equal. */
  function CompareTop(a: Coordinate, b: Coordinate): (r: real)
    ensures a.top.Some? && b.top.Some? ==>
      (r < 0.0 <==> a.top.value < b.top.value) && (r > 0.0 <==> a.top.value > b.top.value)
    ensures r == 0.0 <==> a.top.None? || b.top.None? || a.top.value == b.top.value
  {
    if a.top.Some? && b.top.Some? then a.top.value - b.top.value else 0.0
  }

  /** Places c after every leading record the comparator does not rank above it. */
  function Insert(c: Coordinate, s: seq<Coordinate>): (r: seq<Coordinate>)
    ensures multiset(r) == multiset(s) + multiset{c}
    ensures AllTopsDefined(s) && c.top.Some? && SortedByTop(s) ==> SortedByTop(r)
  {
    if s == [] then [c]
    else if CompareTop(s[0], c) > 0.0 then [c] + s
    else
      assert s == [s[0]] + s[1..];
      var rest := Insert(c, s[1..]);
      assert AllTopsDefined(s) && c.top.Some? && SortedByTop(s) ==> SortedByTop([s[0]] + rest) by {
        if AllTopsDefined(s) && c.top.Some? && SortedByTop(s) {
          SortedTail(s);
          InsertAfterLeast(c, s, rest);
        }
      }
      [s[0]] + rest
  }

  /** The tail of a list sorted by defined tops is one too. */
  lemma SortedTail(s: seq<Coordinate>)
    requires s != [] && AllTopsDefined(s) && SortedByTop(s)
    ensures AllTopsDefined(s[1..]) && SortedByTop(s[1..])
  {
    forall c | c in s[1..] ensures c.top.Some? {
      assert c in s;
    }
    forall i, j | 0 <= i < j < |s[1..]| ensures TopAtMost(s[1..][i], s[1..][j]) {
      assert s[1..][i] == s[i + 1] && s[1..][j] == s[j + 1];
    }
  }

  lemma InsertAfterLeast(c: Coordinate, s: seq<Coordinate>, rest: seq<Coordinate>)
    requires s != [] && AllTopsDefined(s) && c.top.Some? && SortedByTop(s)
    requires CompareTop(s[0], c) <= 0.0
    requires multiset(rest) == multiset(s[1..]) + multiset{c}
    requires SortedByTop(rest)
    ensures SortedByTop([s[0]] + rest)
  {
    var r := [s[0]] + rest;
    assert s[0] in s;
    forall i, j | 0 <= i < j < |r| ensures TopAtMost(r[i], r[j]) {
      if i == 0 {
        var y := rest[j - 1];
        assert y in multiset(rest);
        if y != c {
          assert y in multiset(s[1..]);
          var k :| 0 <= k < |s[1..]| && s[1..][k] == y;
          assert TopAtMost(s[0], s[k + 1]);
        }
      } else {
        assert r[i] == rest[i - 1] && r[j] == rest[j - 1];
      }
    }
  }

  /** The records whose top is t, in their order. */
  function WithTop(s: seq<Coordinate>, t: real): seq<Coordinate> {
    if s == [] then [] else (if s[0].top == Some(t) then [s[0]] else []) + WithTop(s[1..], t)
  }

  lemma {:induction false} WithTopAppend(a: seq<Coordinate>, b: seq<Coordinate>, t: real)
    ensures WithTop(a + b, t) == WithTop(a, t) + WithTop(b, t)
  {
    if a == [] {
      assert a + b == b;
    } else {
      var h := if a[0].top == Some(t) then [a[0]] else [];
      calc {
        WithTop(a + b, t);
        == { assert a + b == [a[0]] + (a[1..] + b); WithTopCons(a[0], a[1..] + b, t); }
        h + WithTop(a[1..] + b, t);
        == { WithTopAppend(a[1..], b, t); }
        h + (WithTop(a[1..], t) + WithTop(b, t));
        == { ConcatAssoc(h, WithTop(a[1..], t), WithTop(b, t)); }
        (h + WithTop(a[1..], t)) + WithTop(b, t);
        == { assert a == [a[0]] + a[1..]; WithTopCons(a[0], a[1..], t); }
        WithTop(a, t) + WithTop(b, t);
      }
    }
  }

  lemma WithTopCons(x: Coordinate, s: seq<Coordinate>, t: real)
    ensures WithTop([x] + s, t) == (if x.top == Some(t) then [x] else []) + WithTop(s, t)
  {
    assert ([x] + s)[0] == x && ([x] + s)[1..] == s;
  }

  lemma {:induction false} WithTopNone(s: seq<Coordinate>, t: real)
    requires forall i :: 0 <= i < |s| ==> s[i].top != Some(t)
    ensures WithTop(s, t) == []
  {
    if s != [] {
      assert forall i :: 0 <= i < |s[1..]| ==> s[1..][i] == s[i + 1];
      WithTopNone(s[1..], t);
    }
  }

  /** Insert puts c in front of a list whose first record the comparator ranks above c. */
  lemma InsertFront(c: Coordinate, s: seq<Coordinate>)
    requires s != [] && CompareTop(s[0], c) > 0.0
    ensures Insert(c, s) == [c] + s
  {
  }

  /** Insert passes over a first record the comparator does not rank above c. */
  lemma InsertPast(c: Coordinate, s: seq<Coordinate>)
    requires s != [] && CompareTop(s[0], c) <= 0.0
    ensures Insert(c, s) == [s[0]] + Insert(c, s[1..])
  {
  }

  /** In a list sorted by defined tops, a record with top t is inserted after every record
      whose top is also t: the records sharing a top keep their order, the new one last. */
  lemma {:induction false} InsertKeepsTies(c: Coordinate, s: seq<Coordinate>, t: real)
    requires AllTopsDefined(s) && c.top.Some? && SortedByTop(s)
    ensures WithTop(Insert(c, s), t) == WithTop(s, t) + (if c.top == Some(t) then [c] else [])
  {
    var hc := if c.top == Some(t) then [c] else [];
    if s == [] {
      assert Insert(c, s) == [c] + s;
      WithTopCons(c, s, t);
    } else if CompareTop(s[0], c) > 0.0 {
      InsertFront(c, s);
      WithTopCons(c, s, t);
      if c.top == Some(t) {
        assert s[0] in s;
        forall i | 0 <= i < |s| ensures s[i].top != Some(t) {
          if i > 0 {
            assert TopAtMost(s[0], s[i]);
          }
        }
        WithTopNone(s, t);
      }
    } else {
      var h0 := if s[0].top == Some(t) then [s[0]] else [];
      SortedTail(s);
      calc {
        WithTop(Insert(c, s), t);
        == { InsertPast(c, s); }
        WithTop([s[0]] + Insert(c, s[1..]), t);
        == { WithTopCons(s[0], Insert(c, s[1..]), t); }
        h0 + WithTop(Insert(c, s[1..]), t);
        == { InsertKeepsTies(c, s[1..], t); }
        h0 + (WithTop(s[1..], t) + hc);
        == { ConcatAssoc(h0, WithTop(s[1..], t), hc); }
        (h0 + WithTop(s[1..], t)) + hc;
        == { WithTopCons(s[0], s[1..], t); assert [s[0]] + s[1..] == s; }
        WithTop(s, t) + hc;
      }
    }
  }

  /** Inserting the last record into the stably sorted rest keeps the order among records
      with the same top. */
  lemma InsertLastKeepsTies(init: seq<Coordinate>, last: Coordinate, sorted: seq<Coordinate>)
    requires AllTopsDefined(init + [last])
    requires multiset(sorted) == multiset(init) && SortedByTop(sorted)
    requires forall t :: WithTop(sorted, t) == WithTop(init, t)
    ensures forall t :: WithTop(Insert(last, sorted), t) == WithTop(init + [last], t)
  {
    assert last in init + [last];
    assert AllTopsDefined(sorted) by {
      forall c | c in sorted ensures c.top.Some? {
        assert c in multiset(init);
        assert c in init + [last];
      }
    }
    forall t ensures WithTop(Insert(last, sorted), t) == WithTop(init + [last], t) {
      InsertKeepsTies(last, sorted, t);
      WithTopAppend(init, [last], t);
      WithTopCons(last, [], t);
      assert [last] + [] == [last];
    }
  }

  /** Array.prototype.sort with the comparator CompareTop, as a stable insertion sort: the
      records are rearranged, ordered by top when every top is defined, and then records
      with the same top keep their original relative order. */
  function SortByTop(s: seq<Coordinate>): (r: seq<Coordinate>)
    ensures multiset(r) == multiset(s)
    ensures AllTopsDefined(s) ==> SortedByTop(r)
    ensures AllTopsDefined(s) ==> forall t :: WithTop(r, t) == WithTop(s, t)
  {
    if s == [] then []
    else
      var init, last := s[..|s| - 1], s[|s| - 1];
      assert s == init + [last];
      assert AllTopsDefined(s) ==> AllTopsDefined(init);
      var sorted := SortByTop(init);
      assert AllTopsDefined(s) ==> forall t :: WithTop(Insert(last, sorted), t) == WithTop(s, t) by {
        if AllTopsDefined(s) {
          InsertLastKeepsTies(init, last, sorted);
        }
      }
      Insert(last, sorted)
  }

  /** A record that compares equal to every record of s is inserted after all of them. */
  lemma {:induction false} InsertTied(c: Coordinate, s: seq<Coordinate>)
    requires forall i :: 0 <= i < |s| ==> CompareTop(s[i], c) == 0.0
    ensures Insert(c, s) == s + [c]
  {
    if s != [] {
      forall i | 0 <= i < |s[1..]| ensures CompareTop(s[1..][i], c) == 0.0 {
        assert s[1..][i] == s[i + 1];
      }
      calc {
        Insert(c, s);
        == { InsertPast(c, s); }
        [s[0]] + Insert(c, s[1..]);
        == { InsertTied(c, s[1..]); }
        [s[0]] + (s[1..] + [c]);
        == { ConcatAssoc([s[0]], s[1..], [c]); assert [s[0]] + s[1..] == s; }
        s + [c];
      }
    }
  }

  /** One step of SortByTop: the last record is inserted into the sorted rest. */
  lemma SortByTopLast(s: seq<Coordinate>)
    requires s != []
    ensures SortByTop(s) == Insert(s[|s| - 1], SortByTop(s[..|s| - 1]))
  {
  }

  /** When the comparator answers "equal" for every pair (every top undefined, or the
      defined tops all the same), it is consistent, and the stable sort returns the records
      in their original order. */
  lemma {:induction false} TiedKeepsOrder(s: seq<Coordinate>)
    requires forall i, j :: 0 <= i < |s| && 0 <= j < |s| ==> CompareTop(s[i], s[j]) == 0.0
    ensures SortByTop(s) == s
  {
    if s != [] {
      var init, last := s[..|s| - 1], s[|s| - 1];
      forall i, j | 0 <= i < |init| && 0 <= j < |init| ensures CompareTop(init[i], init[j]) == 0.0 {
        assert init[i] == s[i] && init[j] == s[j];
      }
      forall i | 0 <= i < |init| ensures CompareTop(init[i], last) == 0.0 {
        assert init[i] == s[i];
      }
      calc {
        SortByTop(s);
        == { SortByTopLast(s); }
        Insert(last, SortByTop(init));
        == { TiedKeepsOrder(init); }
        Insert(last, init);
        == { InsertTied(last, init); }
        init + [last];
        ==
        s;
      }
    }
  }

  /** `sortByH()`: the records of `Elements`, rearranged, and ordered by top whenever every
      top is defined, records with the same top keeping their order; an error of `Elements`
      is thrown unchanged. */
  function SortByH(number: string -> real, ds: seq<Option<string>>): (r: Result<seq<Coordinate>, ScatterError>)
    ensures r.Success? <==> Elements(number, ds).Success?
    ensures r.Failure? ==> r.error == Elements(number, ds).error
    ensures r.Success? ==> multiset(r.value) == multiset(Elements(number, ds).value)
    ensures r.Success? && AllTopsDefined(Elements(number, ds).value) ==> SortedByTop(r.value)
    ensures r.Success? && AllTopsDefined(Elements(number, ds).value) ==>
      forall t :: WithTop(r.value, t) == WithTop(Elements(number, ds).value, t)
  {
    match Elements(number, ds)
    case Failure(e) => Failure(e)
    case Success(cs) => Success(SortByTop(cs))
  }

  /** A plot whose markers are all quadrilaterals sorts successfully, by top. */
  lemma QuadMarkersSort(number: string -> real, ds: seq<Option<string>>, qs: seq<seq<string>>)
    requires |ds| == |qs|
    requires forall i :: 0 <= i < |qs| ==> |qs[i]| == 8 && AllTokens(qs[i]) && ds[i] == Some(QuadPath(qs[i]))
    ensures SortByH(number, ds).Success?
    ensures SortedByTop(SortByH(number, ds).value)
  {
    forall i | 0 <= i < |ds| ensures GetCoordinate(number, ds[i], i).Success? {
      QuadCoordinate(number, qs[i], i);
    }
    var cs := Elements(number, ds).value;
    forall c | c in cs ensures c.top.Some? {
      var i :| 0 <= i < |cs| && cs[i] == c;
      QuadCoordinate(number, qs[i], i);
    }
  }

  /** A plot whose records all lack a top is returned in the order of `Elements`. */
  lemma UndefinedTopsKeepOrder(number: string -> real, ds: seq<Option<string>>)
    requires Elements(number, ds).Success?
    requires forall c :: c in Elements(number, ds).value ==> c.top.None?
    ensures SortByH(number, ds) == Elements(number, ds)
  {
    var es := Elements(number, ds).value;
    assert forall i :: 0 <= i < |es| ==> es[i] in es;
    TiedKeepsOrder(es);
  }

  /** Arc markers leave top undefined, so a plot of arc markers (with tips that differ from
      the lengths) is not sorted at all: `sortByH` returns it in the order of `Elements`. */
  lemma ArcMarkersKeepOrder(number: string -> real, ds: seq<Option<string>>, cs: seq<seq<string>>)
    requires |ds| == |cs|
    requires forall i :: 0 <= i < |cs| ==>
      |cs[i]| == 4 && AllTokens(cs[i]) && number(cs[i][2]) != number(cs[i][3]) &&
      ds[i] == Some(ArcPath(cs[i]))
    ensures SortByH(number, ds).Success?
    ensures SortByH(number, ds) == Elements(number, ds)
  {
    forall i | 0 <= i < |ds| ensures GetCoordinate(number, ds[i], i).Success? {
      ArcCoordinate(number, cs[i], i);
    }
    var es := Elements(number, ds).value;
    forall c | c in es ensures c.top.None? {
      var i :| 0 <= i < |es| && es[i] == c;
      ArcCoordinate(number, cs[i], i);
    }
    UndefinedTopsKeepOrder(number, ds);
  }
}
