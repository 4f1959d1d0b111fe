/** Copy-on-write handles (`_gcp`) on counted objects (`_gco`).

    `World` knows the handles and the objects there are. Its invariant is that every object's count is the
    number of handles on it; what each operation promises is said of the values the handles read, as if every
    handle had an object to itself. A write goes through the handle: the reference that a non-const access
    returns is not kept.
  */
module CopyOnWrite {
  datatype Option<T> = None | Some(value: T)

  class Object<T> {
    var el: T
    var count: int

    constructor (el: T)
      ensures this.el == el && count == 1
    {
      this.el, count := el, 1;
    }
  }

  class World<T> {
    ghost var handles: set<Handle<T>>
    ghost var objects: set<Object<T>>

    constructor ()
      ensures Valid() && handles == {} && objects == {}
    {
      handles, objects := {}, {};
    }

    /** The handles on `o`, leaving out `but`. */
    ghost function Users(o: Object<T>, but: Handle?<T>): set<Handle<T>>
      reads this`handles, handles
    {
      set h | h in handles && h.target == o && h != but
    }

    /** Every count is right if `but` is taken to be on nothing. */
    ghost predicate ValidBut(but: Handle?<T>)
      reads this, handles, objects
    {
      && (forall h :: h in handles && h != but && h.target != null ==> h.target in objects)
      && (forall o :: o in objects ==> o.count == |Users(o, but)| && o.count > 0)
    }

    ghost predicate Valid()
      reads this, handles, objects
    {
      ValidBut(null)
    }

    /** What the handles read. */
    ghost function Values(): map<Handle<T>, Option<T>>
      reads this`handles, handles, set h | h in handles && h.target != null :: h.target
    {
      map h | h in handles :: Sees(h)
    }

    ghost function Sees(h: Handle<T>): Option<T>
      reads h, h.target
    {
      if h.target == null then None else Some(h.target.el)
    }

    lemma ValuesAre(m: map<Handle<T>, Option<T>>)
      requires m.Keys == handles && forall h :: h in handles ==> m[h] == Sees(h)
      ensures Values() == m
    {
    }

    /** There are no objects but those that handles are on. */
    lemma NoOthers()
      requires Valid()
      ensures objects == set h | h in handles && h.target != null :: h.target
    {
      forall o | o in objects
        ensures exists h :: h in handles && h.target == o
      {
        var h :| h in Users(o, null);
      }
    }

    /** Taking `h` off its object leaves one user less. */
    lemma Without(h: Handle<T>)
      requires Valid() && h in handles && h.target != null
      ensures |Users(h.target, h)| == h.target.count - 1
      ensures forall o :: o in objects && o != h.target ==> Users(o, h) == Users(o, null)
    {
      assert Users(h.target, h) == Users(h.target, null) - {h};
    }

    /** Putting it on another makes one more. */
    lemma With(h: Handle<T>)
      requires h in handles && h.target != null
      ensures |Users(h.target, null)| == |Users(h.target, h)| + 1
      ensures forall o :: o in objects && o != h.target ==> Users(o, null) == Users(o, h)
    {
      assert Users(h.target, null) == Users(h.target, h) + {h};
    }
  }

  class Handle<T> {
    var target: Object?<T>

    constructor ()
      ensures target == null
    {
      target := null;
    }

    /** `_Release`: takes the handle off its object, and destroys the object if no other handle is on it. */
    method Drop(ghost w: World<T>)
      requires w.Valid() && this in w.handles
      modifies w`objects, w.objects
      ensures w.ValidBut(this) && w.objects <= old(w.objects)
      ensures forall o :: o in w.objects ==> o.el == old(o.el)
      ensures forall o :: o in old(w.objects) && o != target ==> o in w.objects
      ensures target != null && target in w.objects <==> old(target != null && target.count > 1)
    {
      if target != null {
        w.Without(this);
        target.count := target.count - 1;
        if target.count == 0 {
          assert w.Users(target, this) == {};
          assert forall h :: h in w.handles && h != this && h.target == target ==> h in w.Users(target, this);
          w.objects := w.objects - {target};
        }
      } else {
        assert forall o :: o in w.objects ==> w.Users(o, this) == w.Users(o, null);
      }
    }

    /** Puts the handle, which is on nothing, on `o`, whose count already says so. */
    method Attach(o: Object?<T>, ghost w: World<T>)
      requires this in w.handles
      requires forall h :: h in w.handles && h != this && h.target != null ==> h.target in w.objects
      requires forall p :: p in w.objects ==> p.count == |w.Users(p, this)| + (if p == o then 1 else 0) && p.count > 0
      requires o != null ==> o in w.objects
      modifies this
      ensures w.Valid() && target == o
    {
      target := o;
      assert forall p :: p in w.objects ==> w.Users(p, this) == old(w.Users(p, this));
      if o != null {
        w.With(this);
      } else {
        assert forall p :: p in w.objects ==> w.Users(p, null) == w.Users(p, this);
      }
    }

    /** `_SetEqual` */
    method SetEqual(o: Object?<T>, ghost w: World<T>)
      requires w.Valid() && this in w.handles && (o != null ==> o in w.objects)
      modifies w`objects, w.objects, this
      ensures w.Valid() && target == o && w.objects <= old(w.objects)
      ensures forall p :: p in w.objects ==> p.el == old(p.el)
    {
      if o != target {
        Drop(w);
        if o != null {
          o.count := o.count + 1;
        }
        Attach(o, w);
      }
    }

    /** Copies a handle over another: this one now reads what `r` reads. */
    method Assign(r: Handle<T>, ghost w: World<T>)
      requires w.Valid() && this in w.handles && r in w.handles
      modifies w`objects, w.objects, this
      ensures w.Valid() && w.Values() == old(w.Values())[this := old(w.Values()[r])]
    {
      SetEqual(r.target, w);
    }

    /** `Release` */
    method Release(ghost w: World<T>)
      requires w.Valid() && this in w.handles
      modifies w`objects, w.objects, this
      ensures w.Valid() && w.Values() == old(w.Values())[this := None]
    {
      ghost var values := w.Values();
      Drop(w);
      Attach(null, w);
      w.ValuesAre(values[this := None]);
    }

    /** `Create1`: the new object is made before the old one is let go. */
    method Create(v: T, ghost w: World<T>)
      requires w.Valid() && this in w.handles
      modifies w`objects, w.objects, this
      ensures w.Valid() && w.Values() == old(w.Values())[this := Some(v)]
    {
      ghost var values := w.Values();
      var o := new Object(v);
      Drop(w);
      AttachNew(o, w);
      w.ValuesAre(values[this := Some(v)]);
    }

    /** Puts the handle, which is on nothing, on an object that no handle is on yet. */
    method AttachNew(o: Object<T>, ghost w: World<T>)
      requires w.ValidBut(this) && this in w.handles && o !in w.objects && o.count == 1
      requires forall h :: h in w.handles && h != this ==> h.target != o
      modifies w`objects, this
      ensures w.Valid() && target == o && w.objects == old(w.objects) + {o}
    {
      w.objects := w.objects + {o};
      assert w.Users(o, this) == {};
      Attach(o, w);
    }

    /** `swap` */
    method Swap(r: Handle<T>, ghost w: World<T>)
      requires w.Valid() && this in w.handles && r in w.handles
      modifies this, r
      ensures w.Valid() && w.Values() == old(w.Values())[this := old(w.Values()[r])][r := old(w.Values()[this])]
    {
      ghost var values := w.Values();
      target, r.target := r.target, target;
      w.ValuesAre(values[this := values[r]][r := values[this]]);
      forall o | o in w.objects
        ensures |w.Users(o, null)| == old(|w.Users(o, null)|)
      {
        Exchange(o, old(w.Users(o, null)), r, w);
      }
    }

    lemma Exchange(o: Object<T>, was: set<Handle<T>>, r: Handle<T>, w: World<T>)
      requires this in w.handles && r in w.handles
      requires forall h :: h in was <==> h in w.handles && (if h == this then r.target else if h == r then target else h.target) == o
      ensures |w.Users(o, null)| == |was|
    {
      var now := w.Users(o, null);
      if this == r || target == r.target || (target != o && r.target != o) {
        assert now == was;
      } else if r.target == o {
        Moved(now, was, this, r);
      } else {
        Moved(now, was, r, this);
      }
    }

    static lemma Moved(now: set<Handle<T>>, was: set<Handle<T>>, from: Handle<T>, to: Handle<T>)
      requires from in was && to !in was && now == was - {from} + {to}
      ensures |now| == |was|
    {
    }

    /** What a const access reads. */
    method Read(ghost w: World<T>) returns (v: Option<T>)
      requires w.Valid() && this in w.handles
      ensures v == w.Values()[this]
    {
      v := if target == null then None else Some(target.el);
    }

    /** A write through a non-const access: the object is copied first if another handle is on it. */
    method Write(f: T -> T, ghost w: World<T>)
      requires w.Valid() && this in w.handles
      modifies w`objects, w.objects, this
      ensures w.Valid()
      ensures w.Values() == old(w.Values())[this := match old(w.Values()[this]) case None => None case Some(v) => Some(f(v))]
    {
      CopyIfShared(w);
      if target != null {
        Store(f(target.el), w);
      }
    }

    /** A write to an object that no other handle is on. */
    method Store(v: T, ghost w: World<T>)
      requires w.Valid() && this in w.handles && target != null && w.Users(target, null) == {this}
      modifies target`el
      ensures w.Valid() && w.Values() == old(w.Values())[this := Some(v)]
    {
      assert forall h :: h in w.handles && h.target == target ==> h in w.Users(target, null);
      target.el := v;
    }

    /** `_CopyOnWrite`: afterwards this handle has its object, if any, to itself. */
    method CopyIfShared(ghost w: World<T>)
      requires w.Valid() && this in w.handles
      modifies w`objects, w.objects, this
      ensures w.Valid() && w.Values() == old(w.Values())
      ensures target != null ==> target.count == 1 && w.Users(target, null) == {this}
      ensures target != null ==> fresh(target) || target in old(w.objects)
    {
      if target != null {
        if 1 < target.count {
          DoCopy(w);
        }
        OnlyUser(w);
      }
    }

    lemma OnlyUser(w: World<T>)
      requires w.Valid() && this in w.handles && target != null && target.count == 1
      ensures w.Users(target, null) == {this}
    {
      assert this in w.Users(target, null);
      assert |w.Users(target, null) - {this}| == 0;
    }

    /** `_DoCopy` */
    method DoCopy(ghost w: World<T>)
      requires w.Valid() && this in w.handles && target != null && target.count > 1
      modifies w`objects, w.objects, this
      ensures w.Valid() && w.Values() == old(w.Values())
      ensures target != null && target.count == 1 && fresh(target)
    {
      var copy := new Object(target.el);
      w.Without(this);
      target.count := target.count - 1;
      AttachNew(copy, w);
    }
  }

  /** A default handle, which is on nothing; a copy of a handle; and the end of one. */
  method NewHandle<T>(ghost w: World<T>) returns (h: Handle<T>)
    requires w.Valid()
    modifies w`handles
    ensures w.Valid() && fresh(h) && w.handles == old(w.handles) + {h}
    ensures w.Values() == old(w.Values())[h := None]
  {
    h := new Handle<T>();
    w.handles := w.handles + {h};
    assert forall o :: o in w.objects ==> w.Users(o, null) == old(w.Users(o, null));
  }

  lemma NewThenAssigned<T>(values: map<Handle<T>, Option<T>>, more: map<Handle<T>, Option<T>>, now: map<Handle<T>, Option<T>>,
                           h: Handle<T>, r: Handle<T>)
    requires r in values && r != h && more == values[h := None] && now == more[h := more[r]]
    ensures now == values[h := values[r]]
  {
  }

  method CopyHandle<T>(r: Handle<T>, ghost w: World<T>) returns (h: Handle<T>)
    requires w.Valid() && r in w.handles
    modifies w`handles, w`objects, w.objects
    ensures w.Valid() && fresh(h) && w.handles == old(w.handles) + {h}
    ensures w.Values() == old(w.Values())[h := old(w.Values()[r])]
  {
    ghost var values := w.Values();
    h := NewHandle(w);
    ghost var more := w.Values();
    h.Assign(r, w);
    NewThenAssigned(values, more, w.Values(), h, r);
  }

  method EndHandle<T>(h: Handle<T>, ghost w: World<T>)
    requires w.Valid() && h in w.handles
    modifies w`handles, w`objects, w.objects
    ensures w.Valid() && w.handles == old(w.handles) - {h}
    ensures w.Values() == old(w.Values()) - {h}
  {
    h.Drop(w);
    w.handles := w.handles - {h};
    assert forall o :: o in w.objects ==> w.Users(o, null) == old(w.Users(o, h));
  }
}
