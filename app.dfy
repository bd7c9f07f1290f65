/**
 * `App` (src/app.rs): the owner of the matrix. It maps terminal cells to
 * grid cells, two grid cells per terminal cell in each direction, and keeps
 * the quit flag that the event loop polls.
 */
module Application {
  import opened Wrappers
  import opened MatrixSpec
  import Matrix

  /** Terminal sizes are `u16`. */
  type U16 = n: nat | n < 0x1_0000

  /** `term_to_matrix_size`: the grid is exactly twice the terminal size in each direction. */
  function TermToMatrixSize(width: U16, height: U16): (size: (nat, nat))
    ensures size.0 % 2 == 0 && size.0 / 2 == width
    ensures size.1 % 2 == 0 && size.1 / 2 == height
  {
    (width * 2, height * 2)
  }

  class App {
    var matrix: Matrix.Matrix
    var shouldQuit: bool

    ghost predicate Valid()
      reads this, matrix
    {
      matrix.Valid()
    }

    /** `App::new`: an empty matrix of the grid size of the terminal, not quitting. */
    constructor (width: U16, height: U16)
      ensures Valid() && fresh(matrix) && !shouldQuit
      ensures (matrix.width, matrix.height) == TermToMatrixSize(width, height)
      ensures forall x, y :: 0 <= x < matrix.width && 0 <= y < matrix.height ==> matrix.fadingChars[x][y] == None
      ensures matrix.hotChars == []
    {
      var size := TermToMatrixSize(width, height);
      matrix := new Matrix.Matrix(size.0, size.1);
      shouldQuit := false;
    }

    /** `App::tick`: one tick of the matrix; the quit flag is untouched. */
    method Tick(r: Draws)
      requires Valid() && DrawsInRange(r, matrix.width, matrix.height)
      modifies matrix
      ensures Valid() && shouldQuit == old(shouldQuit)
      ensures matrix.width == old(matrix.width) && matrix.height == old(matrix.height)
      ensures matrix.fadingChars == TickedGrid(old(matrix.fadingChars), old(matrix.hotChars), matrix.width, matrix.height, r)
      ensures matrix.hotChars == TickedStreams(old(matrix.hotChars), matrix.height, r)
    {
      matrix.Tick(r);
    }

    /** `App::resize`: resize the matrix to the grid size of the new terminal size. */
    method Resize(width: U16, height: U16)
      requires Valid()
      modifies matrix
      ensures Valid() && shouldQuit == old(shouldQuit)
      ensures (matrix.width, matrix.height) == TermToMatrixSize(width, height)
      ensures matrix.fadingChars == Resized(old(matrix.fadingChars), matrix.width, matrix.height)
      ensures matrix.hotChars == old(matrix.hotChars)
    {
      var size := TermToMatrixSize(width, height);
      matrix.Resize(size.0, size.1);
    }

    /** `App::quit`: the flag is set whatever it was, so a second call changes nothing. */
    method Quit()
      modifies this`shouldQuit
      ensures shouldQuit
    {
      shouldQuit := true;
    }

    /** `App::should_quit`. */
    method ShouldQuit() returns (quit: bool)
      ensures quit == shouldQuit
    {
      quit := shouldQuit;
    }
  }
}
