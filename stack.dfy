/** The stack of data_structures/stack: a JavaScript array whose last element is the top. */
module Stacks {
  import opened Wrappers
  import opened JsArrays

  /** The error `pop` throws. */
  datatype StackError = StackEmpty

  function Message(e: StackError): (m: string)
    ensures m != []
  {
    "Stack is empty"
  }

  /** The constructor's optional argument: an array, a single value, or nothing. */
  datatype StackInitial<T> = ArrayArg(arr: JsArray<T>) | ValueArg(value: T) | Omitted

  class Stack<T> {
    var content: JsArray<T>

    /**
     * `new Stack(initial)`. An array argument becomes the content itself, not a
     * copy, so the caller and the stack share it.
     */
    constructor (initial: StackInitial<T>)
      ensures initial.ArrayArg? ==> content == initial.arr
      ensures initial.ValueArg? ==> fresh(content) && content.elements == [initial.value]
      ensures initial.Omitted? ==> fresh(content) && content.elements == []
    {
      if initial.ArrayArg? {
        content := initial.arr;
      } else if initial.ValueArg? {
        content := new JsArray([initial.value]);
      } else {
        content := new JsArray([]);
      }
    }

    /** `pop()`: the top of the stack, removed; throws when the stack is empty. */
    method Pop() returns (r: Result<T, StackError>)
      modifies content
      ensures r.Failure? <==> old(content.elements) == []
      ensures r.Failure? ==> r.error == StackEmpty && content.elements == []
      ensures r.Success? ==>
                old(content.elements) == content.elements + [r.value]
    {
      if |content.elements| == 0 {
        return Failure(StackEmpty);
      }
      var top := content.Pop();
      return Success(top.value);
    }

    /** `push(top)`: `top` becomes the new top of the stack. */
    method Push(top: T)
      modifies content
      ensures content.elements == old(content.elements) + [top]
    {
      content.Push(top);
    }
  }

  /** Last in, first out: `pop` right after `push(x)` yields `x` and restores the content. */
  method PushThenPop<T>(s: Stack<T>, x: T) returns (r: Result<T, StackError>)
    modifies s.content
    ensures r == Success(x)
    ensures s.content.elements == old(s.content.elements)
  {
    ghost var before := s.content.elements;
    s.Push(x);
    r := s.Pop();
    assert s.content.elements + [r.value] == before + [x];
    assert r.value == (before + [x])[|before|];
    assert s.content.elements == (before + [x])[..|before|];
  }
}
