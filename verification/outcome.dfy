/** How a solver run ends: a value, or the exception the Python code would
    raise on that input. */
module Outcome {

  /** The exceptions the solvers can raise on their own inputs. */
  datatype Error =
      /** `num_generations < 1`: the loop never runs, so the fitness scores
          read after it are unbound (`UnboundLocalError`). */
    | NoGenerations
      /** `population_size < 1`: the initial population is an empty
          one-dimensional array, which cannot be indexed as a table of tours
          (`IndexError`). */
    | EmptyPopulation
      /** Tours of no cities: `tours[:, -1]` in `evaluate_fitness` indexes
          an axis of size 0 (`IndexError`). */
    | NoCities
      /** Integer division by a zero `percent_reduction`
          (`ZeroDivisionError`). */
    | DivisionByZero
      /** `np.random.choice` asked for a negative number of samples
          (`ValueError`). */
    | NegativeSampleSize
      /** `np.random.randint(0, 0)`: a draw from an empty range of parents
          (`ValueError`). */
    | EmptyParentRange
      /** `np.argmax` of an empty array of fitness scores (`ValueError`). */
    | EmptyArgMax
      /** The returned tour's index lies outside the final population
          (`IndexError`). */
    | IndexOutOfRange
      /** `np.random.choice` without replacement asked for more samples than
          there are items, or for any sample at all from no items (numpy's
          "a must be greater than 0 unless no samples are taken")
          (`ValueError`). */
    | SampleExceedsPopulation
      /** `min` of an empty list of costs (`ValueError`). */
    | EmptyMin
      /** `np.random.randint(0, 0)`: an ant's start city drawn when there are
          no cities (`ValueError`). */
    | EmptyCityRange

  datatype Result<T> = Success(value: T) | Failure(error: Error)
}
