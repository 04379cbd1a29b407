/**
 * The fixed eight-column table schema, and the dictionary keys under which
 * the scraper stores a record's fields.
 */
module Schema {
  import opened Wrappers
  import opened Scrape

  datatype DataType = StringType | IntegerType

  datatype StructField = StructField(name: string, dataType: DataType, nullable: bool)

  /** The table's columns, in order. */
  function TableSchema(): seq<StructField> {
    [
      StructField("Organization_Name", StringType, true),
      StructField("repository_id", StringType, true),
      StructField("repository_name", StringType, true),
      StructField("repository_owner", StringType, true),
      StructField("num_prs", IntegerType, true),
      StructField("num_prs_merged", IntegerType, true),
      StructField("merged_at", StringType, true),
      StructField("is_compliant", StringType, true)
    ]
  }

  /** The value stored under `key` in the dictionary the scraper builds for `rec`. */
  function Lookup(rec: RepoRecord, key: string): Option<string> {
    match key
    case "repository_name" => Some(rec.repositoryName)
    case "repository_id" => Some(rec.repositoryId)
    case "Organization Name" => Some(rec.organizationName)
    case "num_prs" => Some(rec.numPrs)
    case "num_prs_merged" => Some(rec.numPrsMerged)
    case "merged_at" => Some(rec.mergedAt)
    case "repository_owner" => Some(rec.repositoryOwner)
    case "is_compliant" => Some(rec.isCompliant)
    case _ => None
  }

  /** The raw value a reader that matches columns by name finds for each schema column (type coercion aside). */
  function ReadByName(rec: RepoRecord): (row: seq<Option<string>>)
    ensures |row| == |TableSchema()|
  {
    seq(|TableSchema()|, i requires 0 <= i < |TableSchema()| => Lookup(rec, TableSchema()[i].name))
  }

  /**
   * Read by name, a record keeps seven of its fields but loses its
   * organisation name: the scraper stores it under `Organization Name`, the
   * schema names the column `Organization_Name`.
   */
  lemma ReadByNameDropsOrganization(rec: RepoRecord)
    ensures ReadByName(rec) == [
      None,
      Some(rec.repositoryId),
      Some(rec.repositoryName),
      Some(rec.repositoryOwner),
      Some(rec.numPrs),
      Some(rec.numPrsMerged),
      Some(rec.mergedAt),
      Some(rec.isCompliant)]
  {
  }
}
