/** TransformationNonCancellable: a transformation of an agent that, once applied, can
    never be cancelled by the agent engine. */
module TransformationNonCancellable {

  datatype Transformation<T> = Transformation(agent: T)

  /** The constructor hands the agent unchanged to the base transformation. */
  function New<T>(agent: T): (t: Transformation<T>)
    ensures t.agent == agent
  {
    Transformation(agent)
  }

  /** No such transformation is cancelable. */
  function IsCancelable<T>(t: Transformation<T>): (r: bool)
    ensures !r
  {
    false
  }
}
