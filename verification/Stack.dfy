/** A stack as a list, top first. */
module Stacks {

  datatype Stack<+T> = Bottom | On(top: T, under: Stack<T>) {

    function Depth(): nat {
      if Bottom? then 0 else 1 + under.Depth()
    }
  }
}
