/** The data shapes of the dashboard: a row of the loaded table and a
    pipeline step. */
module Types {

  datatype Option<T> = None | Some(value: T)

  /** A loaded row: column name to cell text (`DataRow`). */
  type DataRow = map<string, string>

  /** The loaded table, in file order. */
  type Table = seq<DataRow>

  /** The three kinds of step the editor can add. */
  datatype StepType = Filter | Calculate | Chart

  /** A step's configuration; `None` is a key the object does not have. */
  datatype StepConfig = StepConfig(column: Option<string>, value: Option<string>)

  /** The configuration a new step starts with: `{}`. */
  const EmptyConfig := StepConfig(None, None)

  /** `PipelineStep`: an id (a millisecond timestamp in the dashboard), a
      kind and a configuration. */
  datatype PipelineStep = PipelineStep(id: int, kind: StepType, config: StepConfig)

  /** An optional key that is present and not the empty string, that is,
      one JavaScript treats as truthy. */
  predicate IsSet(o: Option<string>)
  {
    o.Some? && o.value != ""
  }
}
