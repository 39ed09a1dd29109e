/** The catalog entry every structure works over. */
module Catalog {
  /** A movie as far as the data structures look at it: its identifier,
      its title, its rating (in tenths of a star, so that equality is exact)
      and its like count, the popularity key of the trending heap. */
  datatype Movie = Movie(id: int, title: string, rating: int, likes: nat)
}
