/** Construction and capture failures. */
module CaptureErrors {
  datatype CaptureError =
    | NotEnabled
    | NoCapture
    | InvalidLayers
    | CapacityExceeded
    | AllocationFailed
    | UnsupportedBatch
    | EvaluationFailed
    | MissingLayer(layer: nat)
    | DuplicateLayer(layer: nat)
    | UnsupportedTensor(layer: nat)
    | NonFinite(layer: nat)
    | CallbackFailed
}
