/**
  Shared vocabulary of the Huffman compressor: symbols, bit strings, and the
  failures the pipeline can run into.
 */
module Base {

  /** One unit of the input text. */
  type Symbol = char

  /** The compressor keeps its bits as a text string of '0' and '1'. */
  type BitString = seq<char>

  predicate IsBit(c: char) {
    c == '0' || c == '1'
  }

  predicate IsBits(s: BitString) {
    forall i :: 0 <= i < |s| ==> IsBit(s[i])
  }

  /** The exceptions the pipeline can raise, one per failure point. */
  datatype Error =
    | EmptyQueue                  // priority_queue[0] on an empty queue (empty frequency table)
    | MissingCodeword(sym: Symbol) // codeword_table[char] for a symbol that has no codeword
    | EmptyHeader                 // int('', 2) when the packed stream has no header byte
    | NoChild                     // stepping to the child of a leaf (a None child)

  datatype Result<+T> = Success(value: T) | Failure(error: Error) {
    predicate IsFailure() {
      Failure?
    }

    function PropagateFailure<U>(): Result<U>
      requires Failure?
    {
      Failure(error)
    }

    function Extract(): T
      requires Success?
    {
      value
    }
  }
}
