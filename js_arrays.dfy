/** The part of JavaScript's built-in Array that the stack and the hashmap rely on. */
module JsArrays {
  import opened Wrappers

  /**
   * A JavaScript Array object. It is held by reference, so two variables can
   * name the same array, and `push`/`pop` change it in place.
   */
  class JsArray<T> {
    var elements: seq<T>

    /** An array literal or a spread copy `[...xs]`: a new array object. */
    constructor (elements: seq<T>)
      ensures this.elements == elements
    {
      this.elements := elements;
    }

    /** `push`: appends one element at the end. */
    method Push(x: T)
      modifies this
      ensures elements == old(elements) + [x]
    {
      elements := elements + [x];
    }

    /** `pop`: removes and returns the last element; `undefined` on an empty array. */
    method Pop() returns (r: Option<T>)
      modifies this
      ensures old(elements) == [] ==> r == None && elements == []
      ensures old(elements) != [] ==>
                r == Some(old(elements)[|old(elements)| - 1]) &&
                elements == old(elements)[..|old(elements)| - 1]
    {
      if elements == [] {
        r := None;
      } else {
        r := Some(elements[|elements| - 1]);
        elements := elements[..|elements| - 1];
      }
    }
  }
}
