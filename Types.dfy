// The entities of the game (src/types.ts), plus the Option type that stands for
// JavaScript's `null` result and `NaN` number.
module Types {

  datatype Option<T> = None | Some(value: T)

  /** The four arithmetic operations, '+' | '-' | '*' | '/'. */
  datatype Operation = Add | Sub | Mul | Div

  /** One falling problem. `x` is the horizontal position as a percentage of the
      play area's width; `y` is the distance of the problem from the top of the
      play area, which grows every tick. */
  datatype Problem = Problem(id: int, text: string, answer: int, x: real, y: real)

  /** `digits` is the number of digits of the generated operands; `initialSpeed`
      is the distance a problem falls per tick at the start of a game and
      `speedIncrement` what each correct answer adds to that distance. */
  datatype GameSettings = GameSettings(
    digits: int,
    operations: seq<Operation>,
    initialSpeed: real,
    speedIncrement: real)

  datatype GameStatus = Idle | Playing | GameOver
}
