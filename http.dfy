/** The HTTP status codes the services answer with. */
module Http {

  type StatusCode = nat

  const StatusOk: StatusCode := 200
  const StatusBadRequest: StatusCode := 400
  const StatusPayloadTooLarge: StatusCode := 413
  const StatusUnsupportedMediaType: StatusCode := 415
  const StatusInternalServerError: StatusCode := 500
}
