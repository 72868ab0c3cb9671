/** Line extension: the straight line through two points, as a function of x
    or of y, and `extend_line`, which evaluates it at a given coordinate and
    optionally moves the end point there. Arithmetic is exact here; the
    scripts compute in floating point.

    Both versions leave the function unbound when the axis is neither x nor
    y, so the call fails with UnboundLocalError before `extend_line` reaches
    its own "Put 'x' or 'y'" error; `CheckedLinearFunction` is the evidently
    intended behaviour, and `ExtendLine` is built on it. */
module Extend {
  import opened Wrappers
  import opened Text
  import opened Outline

  /** `t ↦ scale · (slope · t + offset)`, the shape of both lambdas. */
  datatype Affine = Affine(scale: real, slope: real, offset: real)

  function Apply(f: Affine, t: real): real {
    f.scale * (f.slope * t + f.offset)
  }

  /** `_make_lower_string`: `string.upper()` is truthy exactly for a non-empty
      string, so the result is always the lower-case form. */
  function MakeLowerString(s: string): (r: string)
    ensures r == Lower(s)
  {
    if |Upper(s)| > 0 then Lower(s) else s
  }

  /** The lambda for axis x: y as a function of x. */
  function LineOfX(m: (real, real), n: (real, real)): Affine
    requires n.0 != m.0
  {
    Affine(1.0 / (n.0 - m.0), n.1 - m.1, n.0 * m.1 - m.0 * n.1)
  }

  /** The lambda for axis y: x as a function of y. */
  function LineOfY(m: (real, real), n: (real, real)): Affine
    requires n.1 != m.1
  {
    Affine(1.0 / (n.1 - m.1), n.0 - m.0, -(n.0 * m.1 - m.0 * n.1))
  }

  lemma ScaleBack(d: real, a: real)
    requires d != 0.0
    ensures (1.0 / d) * (a * d) == a
  {
    calc {
      (1.0 / d) * (a * d);
      a * ((1.0 / d) * d);
      a * 1.0;
    }
  }

  /** y as a function of x passes through both points. */
  lemma LineOfXThrough(m: (real, real), n: (real, real))
    requires n.0 != m.0
    ensures Apply(LineOfX(m, n), m.0) == m.1 && Apply(LineOfX(m, n), n.0) == n.1
  {
    var d := n.0 - m.0;
    assert (n.1 - m.1) * m.0 + (n.0 * m.1 - m.0 * n.1) == m.1 * d;
    assert (n.1 - m.1) * n.0 + (n.0 * m.1 - m.0 * n.1) == n.1 * d;
    ScaleBack(d, m.1);
    ScaleBack(d, n.1);
  }

  /** x as a function of y passes through both points. */
  lemma LineOfYThrough(m: (real, real), n: (real, real))
    requires n.1 != m.1
    ensures Apply(LineOfY(m, n), m.1) == m.0 && Apply(LineOfY(m, n), n.1) == n.0
  {
    var d := n.1 - m.1;
    assert (n.0 - m.0) * m.1 - (n.0 * m.1 - m.0 * n.1) == m.0 * d;
    assert (n.0 - m.0) * n.1 - (n.0 * m.1 - m.0 * n.1) == n.0 * d;
    ScaleBack(d, m.0);
    ScaleBack(d, n.0);
  }

  /** `(a - m) × (n - m) == 0`: `a` lies on the line through `m` and `n`. */
  predicate Collinear(m: (real, real), n: (real, real), a: (real, real)) {
    (a.1 - m.1) * (n.0 - m.0) == (n.1 - m.1) * (a.0 - m.0)
  }

  /** Every value of y as a function of x lies on the line. */
  lemma LineOfXCollinear(m: (real, real), n: (real, real), t: real)
    requires n.0 != m.0
    ensures Collinear(m, n, (t, Apply(LineOfX(m, n), t)))
  {
    var d := n.0 - m.0;
    var e := n.1 - m.1;
    var inner := e * t + (n.0 * m.1 - m.0 * n.1);
    assert inner == e * (t - m.0) + m.1 * d;
    var y := (1.0 / d) * inner;
    assert y * d == inner by {
      calc {
        y * d;
        inner * ((1.0 / d) * d);
      }
    }
  }

  /** Every value of x as a function of y lies on the line. */
  lemma LineOfYCollinear(m: (real, real), n: (real, real), t: real)
    requires n.1 != m.1
    ensures Collinear(m, n, (Apply(LineOfY(m, n), t), t))
  {
    var d := n.1 - m.1;
    var e := n.0 - m.0;
    var inner := e * t - (n.0 * m.1 - m.0 * n.1);
    assert inner == e * (t - m.1) + m.0 * d;
    var x := (1.0 / d) * inner;
    assert x * d == inner by {
      calc {
        x * d;
        inner * ((1.0 / d) * d);
      }
    }
  }

  // ---------------------------------------------------------------------------
  // The line function

  /** `get_linear_function(coordinates_1, coordinates_2, x_or_y)` as written:
      an axis other than x or y falls through both branches and the `return`
      finds the name unbound. */
  function GetLinearFunction(m: (real, real), n: (real, real), axis: string): (r: Result<Affine>)
    ensures r == Failure(InputError) <==>
              (n.0 == m.0 && Lower(axis) == "x") || (n.1 == m.1 && Lower(axis) == "y")
    ensures Lower(axis) != "x" && Lower(axis) != "y" ==> r == Failure(UnboundLocalError)
    ensures r.Success? && Lower(axis) == "x" ==> Apply(r.value, m.0) == m.1 && Apply(r.value, n.0) == n.1
    ensures r.Success? && Lower(axis) == "y" ==> Apply(r.value, m.1) == m.0 && Apply(r.value, n.1) == n.0
  {
    var a := MakeLowerString(axis);
    if (n.0 == m.0 && a == "x") || (n.1 == m.1 && a == "y") then Failure(InputError)
    else if a == "x" then LineOfXThrough(m, n); Success(LineOfX(m, n))
    else if a == "y" then LineOfYThrough(m, n); Success(LineOfY(m, n))
    else Failure(UnboundLocalError)
  }

  /** The evidently intended `get_linear_function`: an unknown axis is the
      caller's input error, like a degenerate line. */
  function CheckedLinearFunction(m: (real, real), n: (real, real), axis: string): (r: Result<Affine>)
    ensures r.Failure? <==> (Lower(axis) != "x" && Lower(axis) != "y")
                            || (n.0 == m.0 && Lower(axis) == "x") || (n.1 == m.1 && Lower(axis) == "y")
    ensures r.Failure? ==> r.error == InputError
    ensures r.Success? && Lower(axis) == "x" ==> Apply(r.value, m.0) == m.1 && Apply(r.value, n.0) == n.1
    ensures r.Success? && Lower(axis) == "y" ==> Apply(r.value, m.1) == m.0 && Apply(r.value, n.1) == n.0
  {
    var a := MakeLowerString(axis);
    if a != "x" && a != "y" then Failure(InputError)
    else GetLinearFunction(m, n, axis)
  }

  /** The two agree on x and y; on any other axis the code as written fails
      with UnboundLocalError where an input error was meant. */
  lemma CheckedAgrees(m: (real, real), n: (real, real), axis: string)
    ensures Lower(axis) == "x" || Lower(axis) == "y" ==>
              CheckedLinearFunction(m, n, axis) == GetLinearFunction(m, n, axis)
    ensures Lower(axis) != "x" && Lower(axis) != "y" ==>
              GetLinearFunction(m, n, axis) == Failure(UnboundLocalError)
              && CheckedLinearFunction(m, n, axis) == Failure(InputError)
  {
  }

  /** A concrete axis that shows it. */
  lemma InvalidAxisExample()
    ensures GetLinearFunction((0.0, 0.0), (1.0, 1.0), "z") == Failure(UnboundLocalError)
    ensures CheckedLinearFunction((0.0, 0.0), (1.0, 1.0), "z") == Failure(InputError)
  {
    var l := Lower("z");
    assert |l| == 1 && l[0] == LowerChar('z') == 'z';
    assert l == "z";
    assert l != "x" && l != "y";
    CheckedAgrees((0.0, 0.0), (1.0, 1.0), "z");
  }

  // ---------------------------------------------------------------------------
  // Extending a line

  /** The point reached and the end point afterwards. */
  datatype Extension = Extension(reached: (real, real), end: Point)

  /** `extend_line(start_point, end_point, base_value, x_or_y, apply_extend)`
      built on the intended line function: the point of the line through
      start and end at coordinate `base` of the chosen axis, written to the
      end point only when `apply` is set. The start point is never written. */
  function ExtendLine(start: Point, end: Point, base: real, axis: string, apply: bool): (r: Result<Extension>)
    ensures r.Failure? <==> CheckedLinearFunction(Position(start), Position(end), axis).Failure?
    ensures r.Success? && Lower(axis) == "x" ==> r.value.reached.0 == base
    ensures r.Success? && Lower(axis) == "y" ==> r.value.reached.1 == base
    ensures r.Success? ==> Collinear(Position(start), Position(end), r.value.reached)
    ensures r.Success? && apply ==> r.value.end == end.(x := r.value.reached.0, y := r.value.reached.1)
    ensures r.Success? && !apply ==> r.value.end == end
  {
    var a := MakeLowerString(axis);
    var f :- CheckedLinearFunction(Position(start), Position(end), a);
    var reached := if a == "x" then (base, Apply(f, base)) else (Apply(f, base), base);
    assert Collinear(Position(start), Position(end), reached) by {
      if a == "x" {
        LineOfXCollinear(Position(start), Position(end), base);
      } else {
        LineOfYCollinear(Position(start), Position(end), base);
      }
    }
    Success(Extension(reached, if apply then end.(x := reached.0, y := reached.1) else end))
  }

  /** `extend_line` as written: an unknown axis never reaches its own input
      error. */
  function ExtendLineAsWritten(start: Point, end: Point, base: real, axis: string, apply: bool): (r: Result<Extension>)
    ensures Lower(axis) != "x" && Lower(axis) != "y" ==> r == Failure(UnboundLocalError)
    ensures Lower(axis) == "x" || Lower(axis) == "y" ==> r == ExtendLine(start, end, base, axis, apply)
  {
    var a := MakeLowerString(axis);
    var f :- GetLinearFunction(Position(start), Position(end), a);
    var reached := if a == "x" then (base, Apply(f, base)) else if a == "y" then (Apply(f, base), base) else (0.0, 0.0);
    if a != "x" && a != "y" then Failure(InputError)
    else Success(Extension(reached, if apply then end.(x := reached.0, y := reached.1) else end))
  }

  // ---------------------------------------------------------------------------
  // The older version

  /** The older `extend_line`'s axis: an all-lower-case axis is upper-cased. */
  function LegacyAxis(axis: string): (a: string)
    ensures IsLowerString(axis) ==> a == Upper(axis)
    ensures !IsLowerString(axis) ==> a == axis
  {
    if IsLowerString(axis) then Upper(axis) else axis
  }

  /** `_get_linear_function` with the axes `X` and `Y`; no case folding. */
  function LegacyLinearFunction(m: (real, real), n: (real, real), axis: string): (r: Result<Affine>)
    ensures r == Failure(InputError) <==> (n.0 == m.0 && axis == "X") || (n.1 == m.1 && axis == "Y")
    ensures axis != "X" && axis != "Y" ==> r == Failure(UnboundLocalError)
    ensures axis == "X" ==> r == GetLinearFunction(m, n, "x")
    ensures axis == "Y" ==> r == GetLinearFunction(m, n, "y")
  {
    assert Lower("x") == "x" && Lower("y") == "y";
    if (n.0 == m.0 && axis == "X") || (n.1 == m.1 && axis == "Y") then Failure(InputError)
    else if axis == "X" then Success(LineOfX(m, n))
    else if axis == "Y" then Success(LineOfY(m, n))
    else Failure(UnboundLocalError)
  }

  /** The older `extend_line`: `x`, `X`, `y` and `Y` behave as in the current
      version; anything else fails as written. */
  function LegacyExtendLine(start: Point, end: Point, base: real, axis: string, apply: bool): (r: Result<Extension>)
    ensures axis in {"x", "X"} ==> r == ExtendLine(start, end, base, "x", apply)
    ensures axis in {"y", "Y"} ==> r == ExtendLine(start, end, base, "y", apply)
    ensures LegacyAxis(axis) != "X" && LegacyAxis(axis) != "Y" ==> r == Failure(UnboundLocalError)
  {
    var a := LegacyAxis(axis);
    assert Upper("x") == "X" && Upper("y") == "Y" && Lower("x") == "x" && Lower("y") == "y";
    assert IsLowerString("x") && IsLowerString("y") && !IsLowerString("X") && !IsLowerString("Y") by {
      assert IsLowerAscii("x"[0]) && IsLowerAscii("y"[0]);
    }
    var f :- LegacyLinearFunction(Position(start), Position(end), a);
    var reached := if a == "X" then (base, Apply(f, base)) else (Apply(f, base), base);
    Success(Extension(reached, if apply then end.(x := reached.0, y := reached.1) else end))
  }

  // ---------------------------------------------------------------------------
  // Curves

  /** The guard of `extend_curve` in both versions: anything but four points
      is an input error before any computation; what follows is numerical
      and not part of this model. */
  function ExtendCurveGuard(points: seq<Point>): (r: Result<seq<Point>>)
    ensures r.Failure? <==> |points| != 4
    ensures r.Failure? ==> r.error == InputError
    ensures r.Success? ==> r.value == points
  {
    if |points| != 4 then Failure(InputError) else Success(points)
  }
}
