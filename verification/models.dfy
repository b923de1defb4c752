/** The record types passed between the parsers and the store. Optional
    columns are `Option`s; Python floats are reals. */
module Models {
  import opened Common

  /** Descriptive metadata of one ingested run. */
  datatype RunMetadata = RunMetadata(
    deviceId: string,
    diaperType: string,
    sensorLayout: string,
    externalRunId: Option<string>,
    fileName: Option<string>,
    notes: Option<string>,
    startTs: Option<string>,
    endTs: Option<string>,
    samplingIntervalS: Option<real>)

  /** One temperature/humidity sample of a run. */
  datatype ReadingSample = ReadingSample(
    tElapsedS: real,
    tempC: Option<real>,
    rhPct: Option<real>,
    timestamp: Option<string>,
    sensorId: Option<string>)

  /** One labelled event of a run. */
  datatype LabelEvent = LabelEvent(
    eventType: string,
    eventTimeS: real,
    runId: int,
    eventTs: Option<string>,
    volumeMl: Option<real>,
    locationLabel: Option<string>,
    distanceCm: Option<real>,
    waterTempC: Option<real>,
    confidence: Option<real>,
    source: Option<string>,
    notes: Option<string>)

  /** One row of the lab's run-tracking sheet. */
  datatype RunRegistryEntry = RunRegistryEntry(
    externalRunId: string,
    sourceFile: string,
    sourceRowNumber: int,
    status: Option<string>,
    plannedOrRecordedTs: Option<string>,
    testDevice: Option<string>,
    sensorCap: Option<string>,
    diaperType: Option<string>,
    testProtocol: Option<string>,
    findingsComments: Option<string>,
    testResultRef: Option<string>,
    logFileRef: Option<string>)
}
