/** The DSE (JSON) export and the agreement of the three exports. */
module Dse {
  import opened Results
  import opened Geometry
  import Csv
  import Dst

  /** The JSON document `{'points': [...], 'meta': meta}`; `meta` is opaque to
      the exporter (the upload route passes the uploaded file's name and the image size). */
  datatype Document<M> = Document(points: seq<Point>, meta: M)

  /** The data `export_dse` serialises. */
  function DseDocument<M>(vs: seq<Vertex>, meta: M): (d: Document<M>)
    ensures |d.points| == |vs| && d.meta == meta
    ensures forall i :: 0 <= i < |vs| ==> d.points[i] == Point(Trunc(vs[i].x), Trunc(vs[i].y))
  {
    Document(TruncateAll(vs), meta)
  }

  /** The three exports carry the same coordinates: reading back the CSV text
      and (when every coordinate fits in 32 bits) the DST bytes gives exactly
      the DSE point list. */
  lemma ExportsAgree<M>(vs: seq<Vertex>, meta: M)
    ensures Csv.ParseCsv(Csv.CsvText(vs)) == Some(DseDocument(vs, meta).points)
    ensures Dst.EncodeDst(vs).Success? ==>
      Dst.DecodeDst(Dst.EncodeDst(vs).value) == Success(DseDocument(vs, meta).points)
  {
    Csv.CsvRoundTrip(vs);
    if Dst.EncodeDst(vs).Success? {
      Dst.DstRoundTrip(vs);
    }
  }
}
