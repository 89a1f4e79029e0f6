/** The values of the request's data map (ReportGenerationService.java,
    lines 79 and 93-99): strings, image resources, and anything else. */
module Values {

  /** An opaque image resource; `decodable` says whether its bytes make an
      image part. */
  datatype Resource = Resource(handle: nat, decodable: bool)

  /** A value of the data map: a string, an image resource, or anything
      else the payload carried (a number, a list of table records, ...). */
  datatype Value = Str(s: string) | Image(resource: Resource) | OtherValue
}
