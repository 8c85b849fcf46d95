/** The search shapes the locators and scanners share: keep the entries of a
    walk that pass a test, take the first that passes, and rank candidates by
    platform. */
module Search {
  import opened Common

  ghost predicate NoDup<T>(xs: seq<T>) {
    forall i, j :: 0 <= i < j < |xs| ==> xs[i] != xs[j]
  }

  /** `[x for x in xs if keep(x)]` */
  function Keep(xs: seq<Path>, keep: Path -> bool): (r: seq<Path>)
    ensures |r| <= |xs|
    ensures forall x :: x in r <==> x in xs && keep(x)
    ensures NoDup(xs) ==> NoDup(r)
  {
    if xs == [] then []
    else
      var rest := Keep(xs[..|xs| - 1], keep);
      var last := xs[|xs| - 1];
      assert forall x :: x in xs <==> x in xs[..|xs| - 1] || x == last;
      if keep(last) then rest + [last] else rest
  }

  /** `[y for x in xs for y in f(x)]`: the order nested `for` loops visit. */
  function Expand(xs: seq<Path>, f: Path -> seq<Path>): (r: seq<Path>)
    ensures forall y :: y in r ==> exists x :: x in xs && y in f(x)
  {
    if xs == [] then []
    else
      var rest := Expand(xs[1..], f);
      assert forall x :: x in xs <==> x == xs[0] || x in xs[1..];
      f(xs[0]) + rest
  }

  /** Index of the first element that passes `ok`, the `for ...: if ok: break` shape. */
  function FirstIndexFrom(xs: seq<Path>, ok: Path -> bool, i: nat): (r: Option<nat>)
    requires i <= |xs|
    decreases |xs| - i
    ensures r.Some? ==> i <= r.value < |xs| && ok(xs[r.value])
    ensures r.Some? ==> forall j :: i <= j < r.value ==> !ok(xs[j])
    ensures r.None? ==> forall j :: i <= j < |xs| ==> !ok(xs[j])
  {
    if i == |xs| then None
    else if ok(xs[i]) then Some(i)
    else FirstIndexFrom(xs, ok, i + 1)
  }

  function FirstIndex(xs: seq<Path>, ok: Path -> bool): (r: Option<nat>)
    ensures r.Some? ==> r.value < |xs| && ok(xs[r.value])
    ensures r.Some? ==> forall j :: 0 <= j < r.value ==> !ok(xs[j])
    ensures r.None? ==> forall j :: 0 <= j < |xs| ==> !ok(xs[j])
  {
    FirstIndexFrom(xs, ok, 0)
  }

  /** `r` is the first element of `xs` that passes `ok`, or None when none does. */
  ghost predicate IsFirstWhere(xs: seq<Path>, ok: Path -> bool, r: Option<Path>) {
    if r.None? then forall j :: 0 <= j < |xs| ==> !ok(xs[j])
    else exists k :: 0 <= k < |xs| && xs[k] == r.value && ok(xs[k]) && forall j :: 0 <= j < k ==> !ok(xs[j])
  }

  /** The element that a first-match loop over `xs` returns. */
  function First(xs: seq<Path>, ok: Path -> bool): (r: Option<Path>)
    ensures IsFirstWhere(xs, ok, r)
    ensures r.Some? ==> r.value in xs && ok(r.value)
    ensures r.None? <==> forall x :: x in xs ==> !ok(x)
  {
    match FirstIndex(xs, ok)
    case None => None
    case Some(k) => Some(xs[k])
  }

  /** Platform class of a located artifact, in preference order. */
  datatype Platform = Linux | Other | Windows

  ghost predicate HasClass(xs: seq<Path>, cls: Path -> Option<Platform>, c: Platform) {
    exists x :: x in xs && cls(x) == Some(c)
  }

  /** The locators' ranking: the first Linux candidate, else the first
      candidate of no recognised platform, else the first Windows one. */
  function Prefer(xs: seq<Path>, cls: Path -> Option<Platform>): (r: Option<Path>)
    ensures HasClass(xs, cls, Linux) ==> IsFirstWhere(xs, x => cls(x) == Some(Linux), r)
    ensures !HasClass(xs, cls, Linux) && HasClass(xs, cls, Other) ==>
              IsFirstWhere(xs, x => cls(x) == Some(Other), r)
    ensures !HasClass(xs, cls, Linux) && !HasClass(xs, cls, Other) ==>
              IsFirstWhere(xs, x => cls(x) == Some(Windows), r)
    ensures r.Some? ==> r.value in xs && cls(r.value).Some?
    ensures r.None? <==> forall x :: x in xs ==> cls(x).None?
  {
    var linux := First(xs, x => cls(x) == Some(Linux));
    if linux.Some? then linux
    else
      var other := First(xs, x => cls(x) == Some(Other));
      if other.Some? then other
      else
        var windows := First(xs, x => cls(x) == Some(Windows));
        assert windows.None? ==> forall x :: x in xs ==> cls(x).None? by {
          if windows.None? {
            Unclassified(xs, cls);
          }
        }
        windows
  }

  lemma Unclassified(xs: seq<Path>, cls: Path -> Option<Platform>)
    requires forall x :: x in xs ==> cls(x) != Some(Linux)
    requires forall x :: x in xs ==> cls(x) != Some(Other)
    requires forall x :: x in xs ==> cls(x) != Some(Windows)
    ensures forall x :: x in xs ==> cls(x).None?
  {
    forall x | x in xs ensures cls(x).None? {
      match cls(x)
      case None =>
      case Some(c) =>
        assert cls(x) == Some(c);
        match c
        case Linux => assert false;
        case Other => assert false;
        case Windows => assert false;
    }
  }

  /** The platform of the answer depends only on which candidates there are,
      never on the order the file system lists them in: a Linux candidate wins
      over every Windows or unrecognised one, whatever their positions. */
  lemma PreferredClassIgnoresOrder(xs: seq<Path>, ys: seq<Path>, cls: Path -> Option<Platform>)
    requires multiset(xs) == multiset(ys)
    ensures Prefer(xs, cls).Some? == Prefer(ys, cls).Some?
    ensures Prefer(xs, cls).Some? ==> cls(Prefer(xs, cls).value) == cls(Prefer(ys, cls).value)
  {
    assert forall x :: x in xs <==> x in ys by {
      forall x ensures x in xs <==> x in ys {
        assert x in xs <==> x in multiset(xs);
        assert x in ys <==> x in multiset(ys);
      }
    }
    var rx, ry := Prefer(xs, cls), Prefer(ys, cls);
    if HasClass(xs, cls, Linux) {
      assert HasClass(ys, cls, Linux);
      var kx :| 0 <= kx < |xs| && xs[kx] == rx.value && cls(xs[kx]) == Some(Linux);
      var ky :| 0 <= ky < |ys| && ys[ky] == ry.value && cls(ys[ky]) == Some(Linux);
    } else if HasClass(xs, cls, Other) {
      assert !HasClass(ys, cls, Linux) && HasClass(ys, cls, Other);
      var kx :| 0 <= kx < |xs| && xs[kx] == rx.value && cls(xs[kx]) == Some(Other);
      var ky :| 0 <= ky < |ys| && ys[ky] == ry.value && cls(ys[ky]) == Some(Other);
    } else if HasClass(xs, cls, Windows) {
      assert !HasClass(ys, cls, Linux) && !HasClass(ys, cls, Other) && HasClass(ys, cls, Windows);
      var kx :| 0 <= kx < |xs| && xs[kx] == rx.value && cls(xs[kx]) == Some(Windows);
      var ky :| 0 <= ky < |ys| && ys[ky] == ry.value && cls(ys[ky]) == Some(Windows);
    } else {
      assert !HasClass(ys, cls, Linux) && !HasClass(ys, cls, Other) && !HasClass(ys, cls, Windows);
      assert forall x :: x in xs ==> cls(x).None? by {
        forall x | x in xs ensures cls(x).None? {
          if cls(x).Some? {
            assert HasClass(xs, cls, cls(x).value);
          }
        }
      }
      assert forall y :: y in ys ==> cls(y).None?;
    }
  }
}
