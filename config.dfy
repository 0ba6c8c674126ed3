/** The constants of src/config.py that the modelled code reads. */
module Config {
  const CHUNK_SIZE: int := 500
  const CHUNK_OVERLAP: int := 100
  const COLLECTION_NAME: string := "soc_docs"
  const OLLAMA_URL: string := "http://localhost:11434"
  const OLLAMA_MODEL: string := "mistral"
}
