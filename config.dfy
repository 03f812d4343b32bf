/** The fixed difference operators of config.py (lines 26-36). */
module Config {

  /** 4-neighbour discrete Laplacian: centre +4, orthogonal neighbours -1. */
  const LaplacianKernel: seq<seq<int>> := [[0, -1, 0], [-1, 4, -1], [0, -1, 0]]

  const SobelXKernel: seq<seq<int>> := [[-1, 0, 1], [-2, 0, 2], [-1, 0, 1]]

  const SobelYKernel: seq<seq<int>> := [[-1, -2, -1], [0, 0, 0], [1, 2, 1]]
}
