/**
 * Option and Result, and the failures the modelled library can raise.
 *
 * Each Python exception that escapes the library becomes one Error case;
 * the comment on each case names the exception and where it comes from.
 */
module Common {

  datatype Option<+T> = None | Some(value: T)

  datatype Error =
      /** ValueError from `Types.find`: no table entry accepts the token. */
    | UnsupportedSpecifier(spec: string)
      /** ValueError from `int()` on a piece of a parenthesised extent list. */
    | InvalidLiteral(text: string)
      /** IndexError from `split[0]` when the tokenizer finds no token. */
    | NoTokens
      /** IndexError from `spec[0]` when `encode` is called with no argument. */
    | NoArguments
      /** A string argument after the first one: unpacking it as a field fails. */
    | MisplacedMarker(text: string)
      /** StopIteration from `next()` in the `exact` strategy. */
    | NoExactMatch
      /** TypeError from `abs(None - target)` or `None <= target` in the other strategies. */
    | SizeNotComparable
      /** IndexError from `sorted(...)[0]` on an empty candidate list. */
    | NoCandidate
      /** AttributeError from `None.with_shape(...)`: `match` returned None for this strategy. */
    | UnknownStrategy(strategy: string)
      /** ValueError from `StructFormat.with_shape` for two or more extents. */
    | MultiDimensional(rank: nat)
      /** TypeError from `character * shape[0]` when `shape[0]` is a tuple. */
    | NonIntegerCount
      /** KeyError from the translator's name map. */
    | UnknownNotation(name: string)
      /** ValueError raised by `translate` in place of StopIteration. */
    | CannotTranslate(specifier: string, source: string, destination: string, strategy: string)

  datatype Result<+T> = Ok(value: T) | Err(error: Error) {
    predicate IsFailure() { Err? }

    function PropagateFailure<U>(): Result<U>
      requires Err?
    {
      Err(error)
    }

    function Extract(): T
      requires Ok?
    {
      value
    }
  }
}
