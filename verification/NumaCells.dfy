/** The members of generated classes: `numa<T,N>` for a fundamental type or a pointer
    (numaLib/numatype.hpp:79-130), a cell that is read and written through `load` and
    `store`. */
module NumaCells {

  datatype Cell<T> = Cell(contents: T) {
    function Load(): T {
      contents
    }

    function Store(data: T): Cell<T> {
      Cell(data)
    }
  }

  /** The default constructor stores zero, which for a pointer is null. Generated
      constructors that do not mention a member rely on it. */
  function Zeroed<T>(zero: T): Cell<T> {
    Cell(zero)
  }
}
