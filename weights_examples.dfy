/** The documented power-one weights of shape [2, 1]: the reverse plane
    partitions of size 1 weigh a + b - 2c in all and those of size 2 weigh
    3a + 3b - 8c, with the inverted combined formula. */
module PartitionWeightsExamples {
  import opened SkewHG
  import opened PartitionWeights

  /** One cube on cell (i, j) at power one, inverted: a i + b j - c. */
  lemma OneCube(co: Coefficients, i: int, j: int)
    ensures StackWeight(co, 1, Combined(true), i, j, 1) == co.a * i + co.b * j - co.c
  {
    var x := co.a * i + co.b * j + co.c * (-1 - 0);
    assert Pow(x, 1) == x * Pow(x, 0) == x;
    assert CubeWeight(co, 1, Combined(true), i, j, 0) == x;
    assert StackWeight(co, 1, Combined(true), i, j, 0) == 0;
  }

  /** Two cubes on cell (i, j): (a i + b j - c) + (a i + b j - 2c). */
  lemma TwoCubes(co: Coefficients, i: int, j: int)
    ensures StackWeight(co, 1, Combined(true), i, j, 2) == 2 * co.a * i + 2 * co.b * j - 3 * co.c
  {
    OneCube(co, i, j);
    var x := co.a * i + co.b * j + co.c * (-1 - 1);
    assert Pow(x, 1) == x * Pow(x, 0) == x;
    assert CubeWeight(co, 1, Combined(true), i, j, 1) == x;
  }

  /** The weight of a two-row tableau [[x, y], [z]] with entries at most 2. */
  lemma Shape21(co: Coefficients, x: int, y: int, z: int)
    requires 0 <= x <= 2 && 0 <= y <= 2 && 0 <= z <= 2
    ensures GridWeight(co, 1, Combined(true), [[Val(x), Val(y)], [Val(z)]])
              == StackWeight(co, 1, Combined(true), 0, 0, x) + StackWeight(co, 1, Combined(true), 0, 1, y)
                 + StackWeight(co, 1, Combined(true), 1, 0, z)
  {
    var t: SkewGrid := [[Val(x), Val(y)], [Val(z)]];
    assert t[..1] == [t[0]] && t[..1][..0] == [];
    assert t[0][..1] == [Val(x)] && t[0][..1][..0] == [];
    assert t[1][..0] == [];
    var f := Combined(true);
    assert RowWeight(co, 1, f, 0, [Val(x)]) == StackWeight(co, 1, f, 0, 0, x);
    assert RowWeight(co, 1, f, 0, t[0]) == StackWeight(co, 1, f, 0, 0, x) + StackWeight(co, 1, f, 0, 1, y);
    assert RowWeight(co, 1, f, 1, t[1]) == StackWeight(co, 1, f, 1, 0, z);
    assert GridWeight(co, 1, f, [t[0]]) == RowWeight(co, 1, f, 0, t[0]);
  }

  lemma SizeOne(co: Coefficients)
    ensures GridWeight(co, 1, Combined(true), [[Val(0), Val(1)], [Val(0)]])
            + GridWeight(co, 1, Combined(true), [[Val(0), Val(0)], [Val(1)]])
            == co.a + co.b - 2 * co.c
  {
    Shape21(co, 0, 1, 0);
    Shape21(co, 0, 0, 1);
    OneCube(co, 0, 1);
    OneCube(co, 1, 0);
  }

  lemma SizeTwo(co: Coefficients)
    ensures GridWeight(co, 1, Combined(true), [[Val(0), Val(2)], [Val(0)]])
            + GridWeight(co, 1, Combined(true), [[Val(0), Val(0)], [Val(2)]])
            + GridWeight(co, 1, Combined(true), [[Val(0), Val(1)], [Val(1)]])
            == 3 * co.a + 3 * co.b - 8 * co.c
  {
    Shape21(co, 0, 2, 0);
    Shape21(co, 0, 0, 2);
    Shape21(co, 0, 1, 1);
    TwoCubes(co, 0, 1);
    TwoCubes(co, 1, 0);
    OneCube(co, 0, 1);
    OneCube(co, 1, 0);
  }
}
