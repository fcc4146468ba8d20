TestResult.DisplayName,TestResult.Outcome,TestResult.Duration,TestResult.ResourceCount,RandomSeed
LegacyHyper.Respond (well-formedness),Failed,00:00:00.9473536,2100646,3
LegacyHyper.Responds (well-formedness),Passed,00:00:00.1227138,39645,3
