/** Optional values, the exceptions the simulator raises, and the pair
    "state after the call, exception raised (if any)". Python mutates objects
    before some of its raises, so a failing call still yields a state. */
module Outcomes {

  datatype Option<+T> = None | Some(value: T)

  datatype SimError =
    | GoToFromLowLevel           // ValueError raised by Crazyflie.goTo
    | UnknownTrajectory(id: int) // KeyError raised by Crazyflie.startTrajectory
    | MissingCoefficient         // IndexError while copying eight coefficients per axis
    | ZeroDivision               // ZeroDivisionError of a Python float division
    | ResidualOutOfRange         // AssertionError on the sleep residual

  datatype Outcome<+T> = Outcome(value: T, raised: Option<SimError>) {
    predicate Ok() { raised.None? }
  }
}
