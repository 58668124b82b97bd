/** The name-keyed registries of the widget: `Input.texts`,
    `RadioGroupNumber.texts` and `Text.inputs`.  Each is a JavaScript `Map`,
    which iterates in insertion order, so a registry is modelled as the
    sequence of its entries in the order they were added; `Get` is its view
    as a finite map from names to items. */
module Registries {
  import opened Wrappers

  datatype Entry<T> = Entry(name: string, item: T)

  type Registry<T> = seq<Entry<T>>

  /** The two programmer errors a registry throws. */
  datatype Error = AlreadyDefined(name: string) | DoesNotExist(name: string)

  predicate Has<T>(r: Registry<T>, n: string) {
    exists i | 0 <= i < |r| :: r[i].name == n
  }

  /** No name is bound twice; every registry built by `Add` and `Remove`
      from the empty one has this shape. */
  ghost predicate Distinct<T>(r: Registry<T>) {
    forall i, j | 0 <= i < j < |r| :: r[i].name != r[j].name
  }

  /** The item bound to `n`, as `Map.get` returns it. */
  function Get<T>(r: Registry<T>, n: string): (v: Option<T>)
    ensures v.None? <==> !Has(r, n)
    ensures v.Some? ==> exists i | 0 <= i < |r| :: r[i] == Entry(n, v.value)
  {
    if |r| == 0 then None
    else if r[0].name == n then Some(r[0].item)
    else
      assert Has(r, n) <==> Has(r[1..], n) by {
        if Has(r[1..], n) {
          var i :| 0 <= i < |r[1..]| && r[1..][i].name == n;
          assert r[i + 1].name == n;
        }
        if Has(r, n) {
          var i :| 0 <= i < |r| && r[i].name == n;
          assert r[1..][i - 1].name == n;
        }
      }
      var v := Get(r[1..], n);
      assert v.Some? ==> exists i | 0 <= i < |r| :: r[i] == Entry(n, v.value) by {
        if v.Some? {
          var i :| 0 <= i < |r[1..]| && r[1..][i] == Entry(n, v.value);
          assert r[i + 1] == Entry(n, v.value);
        }
      }
      v
  }

  /** The items in iteration order, as `Map.prototype.values` yields them. */
  function Items<T>(r: Registry<T>): (items: seq<T>)
    ensures |items| == |r|
    ensures forall i {:trigger items[i]} | 0 <= i < |r| :: items[i] == r[i].item
  {
    if |r| == 0 then [] else [r[0].item] + Items(r[1..])
  }

  /** The entries of `r` not named `n`, in their original order. */
  function Without<T>(r: Registry<T>, n: string): (r': Registry<T>)
    ensures forall m :: Has(r', m) <==> Has(r, m) && m != n
    ensures forall m | m != n :: Get(r', m) == Get(r, m)
    ensures !Has(r, n) ==> r' == r
    ensures Distinct(r) ==> Distinct(r')
    ensures Distinct(r) && Has(r, n) ==> |r'| == |r| - 1
  {
    if |r| == 0 then []
    else
      var rest := Without(r[1..], n);
      HasCons(r);
      if r[0].name == n then rest
      else
        var r' := [r[0]] + rest;
        HasCons(r');
        assert r'[1..] == rest;
        r'
  }

  /** In a registry with distinct names, `Without` drops exactly the one
      entry named `n` and keeps the others in their order. */
  lemma {:induction false} WithoutKeepsOrder<T>(r: Registry<T>, n: string)
    requires Distinct(r) && Has(r, n)
    ensures exists k | 0 <= k < |r| :: r[k].name == n && Without(r, n) == r[..k] + r[k + 1..]
  {
    HasCons(r);
    if r[0].name == n {
      assert Without(r, n) == r[1..];
      assert r[..0] + r[1..] == r[1..];
    } else {
      assert Without(r, n) == [r[0]] + Without(r[1..], n);
      WithoutKeepsOrder(r[1..], n);
      var k :| 0 <= k < |r[1..]| && r[1..][k].name == n && Without(r[1..], n) == r[1..][..k] + r[1..][k + 1..];
      SpliceCons(r, k);
      assert r[k + 1].name == n;
    }
  }

  /** Splicing out an entry of the tail, then putting the head back, is
      splicing it out of the whole sequence. */
  lemma SpliceCons<T>(r: seq<T>, k: int)
    requires 0 <= k < |r| - 1
    ensures [r[0]] + (r[1..][..k] + r[1..][k + 1..]) == r[..k + 1] + r[k + 2..]
  {
    assert r[1..][..k] == r[1..k + 1];
    assert r[1..][k + 1..] == r[k + 2..];
    assert [r[0]] + r[1..k + 1] == r[..k + 1];
  }

  /** Whether a name occurs in a non-empty registry is decided by its head
      and its tail. */
  lemma HasCons<T>(r: Registry<T>)
    requires |r| > 0
    ensures forall m :: Has(r, m) <==> r[0].name == m || Has(r[1..], m)
    ensures Distinct(r) <==> Distinct(r[1..]) && !Has(r[1..], r[0].name)
  {
  }

  /** Appending an entry adds exactly its binding when its name is fresh. */
  lemma {:induction false} GetAppend<T>(r: Registry<T>, e: Entry<T>, m: string)
    requires !Has(r, e.name)
    ensures Get(r + [e], m) == if m == e.name then Some(e.item) else Get(r, m)
  {
    if |r| == 0 {
    } else {
      assert (r + [e])[1..] == r[1..] + [e];
      HasCons(r);
      GetAppend(r[1..], e, m);
    }
  }

  /** `Map.set` of a name not yet bound; a bound name throws and leaves the
      registry as it was. */
  function Add<T>(r: Registry<T>, n: string, t: T): (res: Result<Registry<T>, Error>)
    ensures res.Failure? <==> Has(r, n)
    ensures res.Failure? ==> res.error == AlreadyDefined(n)
    ensures res.Success? ==> Get(res.value, n) == Some(t)
    ensures res.Success? ==> forall m | m != n :: Get(res.value, m) == Get(r, m)
    ensures res.Success? ==> Items(res.value) == Items(r) + [t]
    ensures res.Success? && Distinct(r) ==> Distinct(res.value)
  {
    if Has(r, n) then Failure(AlreadyDefined(n))
    else
      var r' := r + [Entry(n, t)];
      assert forall m :: Get(r', m) == if m == n then Some(t) else Get(r, m) by {
        forall m
          ensures Get(r', m) == if m == n then Some(t) else Get(r, m)
        {
          GetAppend(r, Entry(n, t), m);
        }
      }
      assert Distinct(r) ==> Distinct(r') by {
        if Distinct(r) {
          forall i, j | 0 <= i < j < |r'|
            ensures r'[i].name != r'[j].name
          {
            if j == |r| {
              assert r[i].name != n;
            }
          }
        }
      }
      Success(r')
  }

  /** `Map.delete` of a bound name; an unbound name throws. */
  function Remove<T>(r: Registry<T>, n: string): (res: Result<Registry<T>, Error>)
    ensures res.Failure? <==> !Has(r, n)
    ensures res.Failure? ==> res.error == DoesNotExist(n)
    ensures res.Success? ==> Get(res.value, n) == None
    ensures res.Success? ==> forall m | m != n :: Get(res.value, m) == Get(r, m)
    ensures res.Success? && Distinct(r) ==> Distinct(res.value) && |res.value| == |r| - 1
    ensures res.Success? && Distinct(r) ==>
      exists k | 0 <= k < |r| :: r[k].name == n && res.value == r[..k] + r[k + 1..]
  {
    if !Has(r, n) then Failure(DoesNotExist(n))
    else
      assert Distinct(r) ==> exists k | 0 <= k < |r| :: r[k].name == n && Without(r, n) == r[..k] + r[k + 1..] by {
        if Distinct(r) {
          WithoutKeepsOrder(r, n);
        }
      }
      Success(Without(r, n))
  }

  /** Removing the entry just appended gives back the registry it was
      appended to. */
  lemma {:induction false} WithoutLast<T>(r: Registry<T>, e: Entry<T>)
    requires !Has(r, e.name)
    ensures Without(r + [e], e.name) == r
  {
    if |r| == 0 {
      assert Without([e], e.name) == Without([e][1..], e.name);
    } else {
      HasCons(r);
      assert (r + [e])[1..] == r[1..] + [e];
      WithoutLast(r[1..], e);
      assert [r[0]] + r[1..] == r;
    }
  }

  /** Adding a fresh name and then removing it restores the registry,
      order included. */
  lemma AddThenRemove<T>(r: Registry<T>, n: string, t: T)
    requires !Has(r, n)
    ensures Add(r, n, t).Success?
    ensures Remove(Add(r, n, t).value, n) == Success(r)
  {
    WithoutLast(r, Entry(n, t));
  }

  /** Removing a bound name and adding it back with its old item restores
      every binding; only its place in the iteration order moves to the end. */
  lemma RemoveThenAdd<T>(r: Registry<T>, n: string)
    requires Has(r, n)
    ensures Remove(r, n).Success?
    ensures Add(Remove(r, n).value, n, Get(r, n).value).Success?
    ensures forall m :: Get(Add(Remove(r, n).value, n, Get(r, n).value).value, m) == Get(r, m)
  {
  }
}
