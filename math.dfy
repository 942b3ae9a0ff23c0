// kernel/src/math.rs: integer vectors and axis-aligned rectangles.
// `isize` is modelled as `int`; overflow of pos + size is not modelled.

module Math {
  import opened Common

  datatype Vector2D = Vector2D(x: int, y: int)

  /** Componentwise sum (`impl Add for Vector2D`). */
  function Add(a: Vector2D, b: Vector2D): (r: Vector2D)
    ensures r.x - a.x == b.x && r.y - a.y == b.y
  {
    Vector2D(a.x + b.x, a.y + b.y)
  }

  /** The vector that undoes `v`. */
  function Neg(v: Vector2D): (r: Vector2D)
    ensures Add(v, r) == Vector2D(0, 0)
  {
    Vector2D(-v.x, -v.y)
  }

  /** Adding `v` and then its negation gives back the starting point. */
  lemma AddUndo(a: Vector2D, v: Vector2D)
    ensures Add(Add(a, v), Neg(v)) == a
    ensures Add(a, Vector2D(0, 0)) == a
  {
  }

  /** The sum is commutative and associative, so moves compose in any order. */
  lemma AddCommutesAssociates(a: Vector2D, b: Vector2D, c: Vector2D)
    ensures Add(a, b) == Add(b, a)
    ensures Add(Add(a, b), c) == Add(a, Add(b, c))
  {
  }

  datatype Rectangle = Rectangle(pos: Vector2D, size: Vector2D)

  /** Exclusive end corner of a rectangle. */
  function End(r: Rectangle): Vector2D
  {
    Add(r.pos, r.size)
  }

  /** `Rectangle::new`: asserts a non-negative size; the panic is `None`. */
  function NewRectangle(pos: Vector2D, size: Vector2D): (r: Option<Rectangle>)
    ensures r.Some? <==> size.x >= 0 && size.y >= 0
    ensures r.Some? ==> r.value.pos == pos && r.value.size == size
  {
    if size.x >= 0 && size.y >= 0 then Some(Rectangle(pos, size)) else None
  }

  /** `Rectangle::set_size`: the same assertion, then only `size` changes. */
  function SetSize(r: Rectangle, size: Vector2D): (r': Option<Rectangle>)
    ensures r'.Some? <==> size.x >= 0 && size.y >= 0
    ensures r'.Some? ==> r'.value.pos == r.pos && r'.value.size == size
  {
    if size.x >= 0 && size.y >= 0 then Some(r.(size := size)) else None
  }

  /** `Rectangle::contain`: half-open on both axes. */
  predicate Contain(r: Rectangle, p: Vector2D)
  {
    r.pos.x <= p.x < r.pos.x + r.size.x && r.pos.y <= p.y < r.pos.y + r.size.y
  }

  /**
   * Moving a rectangle by `v` moves the points it contains by `v`, and
   * nothing else: the point `p` is in `r` exactly when `p + v` is in the
   * moved rectangle.
   */
  lemma AddMovesContain(r: Rectangle, p: Vector2D, v: Vector2D)
    ensures Contain(r, p) <==> Contain(Rectangle(Add(r.pos, v), r.size), Add(p, v))
  {
  }

  function Max(a: int, b: int): int { if a < b then b else a }
  function Min(a: int, b: int): int { if a < b then a else b }

  /**
   * `Rectangle::intersect`. The result exists exactly when the two
   * rectangles share a point, and it then holds exactly the shared points.
   */
  function Intersect(a: Rectangle, b: Rectangle): (r: Option<Rectangle>)
    ensures r.Some? <==> exists p :: Contain(a, p) && Contain(b, p)
    ensures r.Some? ==> r.value.size.x > 0 && r.value.size.y > 0
    ensures r.Some? ==> forall p :: Contain(r.value, p) <==> Contain(a, p) && Contain(b, p)
  {
    var x1 := Max(a.pos.x, b.pos.x);
    var y1 := Max(a.pos.y, b.pos.y);
    var x2 := Min(End(a).x, End(b).x);
    var y2 := Min(End(a).y, End(b).y);
    if x1 < x2 && y1 < y2 then
      assert Contain(a, Vector2D(x1, y1)) && Contain(b, Vector2D(x1, y1));
      Some(Rectangle(Vector2D(x1, y1), Vector2D(x2 - x1, y2 - y1)))
    else
      None
  }

  /** The intersection does not depend on the order of its arguments. */
  lemma IntersectCommutes(a: Rectangle, b: Rectangle)
    ensures Intersect(a, b) == Intersect(b, a)
  {
  }

  /** The unit tests of math.rs, as facts about the model. */
  lemma IntersectExamples()
    ensures Intersect(Rectangle(Vector2D(0, 0), Vector2D(100, 100)),
                      Rectangle(Vector2D(50, 50), Vector2D(100, 100)))
            == Some(Rectangle(Vector2D(50, 50), Vector2D(50, 50)))
    ensures Intersect(Rectangle(Vector2D(0, 0), Vector2D(100, 100)),
                      Rectangle(Vector2D(200, 200), Vector2D(100, 100))) == None
  {
  }

  lemma ContainExamples()
    ensures var r := Rectangle(Vector2D(0, 0), Vector2D(100, 100));
      Contain(r, Vector2D(50, 50)) && !Contain(r, Vector2D(100, 0)) && Contain(r, Vector2D(0, 0))
      && !Contain(r, Vector2D(0, 100)) && !Contain(r, Vector2D(-1, -1))
  {
  }
}
