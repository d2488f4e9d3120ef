/** Integer 2-D vectors: grid coordinates and walker directions (Unity's Vector2Int). */
module Geometry {

  datatype Vec2 = Vec2(x: int, y: int)

  const Zero: Vec2 := Vec2(0, 0)

  function Plus(a: Vec2, b: Vec2): Vec2 {
    Vec2(a.x + b.x, a.y + b.y)
  }

  function Minus(a: Vec2, b: Vec2): Vec2 {
    Vec2(a.x - b.x, a.y - b.y)
  }

  /** b is one of the four orthogonal neighbours of a. */
  predicate Adjacent(a: Vec2, b: Vec2) {
    || b == Vec2(a.x + 1, a.y)
    || b == Vec2(a.x - 1, a.y)
    || b == Vec2(a.x, a.y + 1)
    || b == Vec2(a.x, a.y - 1)
  }
}
