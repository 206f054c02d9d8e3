/** The record types shared by the store and the application layer (src/User.hpp, src/Book.hpp). */
module Records {

  datatype Option<T> = None | Some(value: T) {
    function GetOr(default: T): T {
      match this
      case Some(v) => v
      case None => default
    }
  }

  /** UserClass: an administrator or an ordinary (NORMAL) user. */
  datatype UserClass = Admin | Normal

  /** A user as the application sees it: the password never leaves the store. */
  datatype User = User(email: string, username: string, kind: UserClass)

  /** A book as the application sees it. Absent optional columns read back as "" or -1. */
  datatype Book = Book(
    bookId: int,
    title: string,
    author: string,
    quantity: int,
    publisher: string,
    pubYear: int,
    description: string,
    edition: int,
    rating: real)

  /** The upper bound of a C++ `int` (32-bit two's complement), the range of std::stoi. */
  const IntMax: int := 0x7fff_ffff
}
